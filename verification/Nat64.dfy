/** Translating packets between IPv6 inside and IPv4 outside. */
module Nat64 {
  import opened Bytes
  import opened Options
  import opened Checksum
  import opened NatTable

  const OFFSET := 4 // of the IPv6 header in the tunnel's buffers
  const HEADER := 40
  const TCP: byte := 6
  const UDP: byte := 17
  const PREFIX: seq<byte> := [0x00, 0x64, 0xFF, 0x9B, 0, 0, 0, 0, 0, 0, 0, 0]

  function Be16(x: u16): (d: seq<byte>)
    ensures |d| == 2 && Word(d[0], d[1]) == x
  {
    [x / 0x100, x % 0x100]
  }

  /** A 16-bit word as the little-endian machine stores it. */
  function Le16(x: u16): (d: seq<byte>)
    ensures |d| == 2 && Word(d[1], d[0]) == x
  {
    [x % 0x100, x / 0x100]
  }

  function Get16(p: seq<byte>, at: nat): u16
    requires at + 2 <= |p|
  {
    Word(p[at], p[at + 1])
  }

  // ---- the checksum of a translated segment ------------------------------------

  /** The pseudo-header of section 8.1 of RFC 8200. */
  function Pseudo(addresses: seq<byte>, length: u16, proto: byte): seq<byte> {
    addresses + ([0, 0] + Be16(length)) + [0, 0, 0, proto]
  }

  /** The checksum field for a segment in which that field is zero. */
  function ChecksumField(addresses: seq<byte>, proto: byte, segment: seq<byte>): u16
    requires |addresses| == 32 && |segment| <= 1500
  {
    var hsum := Swap(Chksum(addresses)) + |segment| + proto;
    var dsum := Swap(Chksum(segment)) + hsum;
    0xFFFF - Chksum(ToLe32(dsum))
  }

  /** What the receiver sums up. */
  function Received(addresses: seq<byte>, proto: byte, segment: seq<byte>): seq<byte>
    requires |segment| <= 1500
  {
    Pseudo(addresses, |segment|, proto) + segment
  }

  lemma PseudoSum(addresses: seq<byte>, length: u16, proto: byte)
    requires |addresses| == 32
    ensures |Pseudo(addresses, length, proto)| == 40 && BigSum(Pseudo(addresses, length, proto)) == BigSum(addresses) + length + proto
  {
    hide BigSum;
    var l, n := [0, 0] + Be16(length), [0, 0, 0, proto];
    BigSumAppend(addresses + l, n);
    BigSumAppend(addresses, l);
    BigSumAppend([0, 0], Be16(length));
    BigSumAppend([0, 0], [0, proto]);
    BigSumWord([0, 0]);
    BigSumWord(Be16(length));
    BigSumWord([0, proto]);
    assert n == [0, 0] + [0, proto];
  }

  /** The sum that the field is computed from, and what the receiver gets with
      any word in the field. */
  lemma FieldSum(addresses: seq<byte>, proto: byte, segment: seq<byte>, at: nat, w: seq<byte>)
    requires |addresses| == 32 && 0 < |segment| <= 1500 && proto > 0
    requires at % 2 == 0 && at + 2 <= |segment| && segment[at] == 0 && segment[at + 1] == 0 && |w| == 2
    ensures var total := BigSum(Received(addresses, proto, Splice(segment, at, w)));
            && 0 < total < 0x1_0000_0000
            && Same(total, Word(w[0], w[1]) - ChecksumField(addresses, proto, segment))
  {
    hide BigSum, Fold, Chksum, Swap, Splice, Pseudo;
    var sent := Splice(segment, at, w);
    PseudoSum(addresses, |segment|, proto);
    BigSumAppend(Pseudo(addresses, |segment|, proto), sent);
    BigSumStore(segment, at, w);
    BigBound(addresses);
    BigBound(segment);
    NetworkSum(addresses);
    NetworkSum(segment);
    var hsum := Swap(Chksum(addresses)) + |segment| + proto;
    var dsum: u32 := Swap(Chksum(segment)) + hsum;
    ChksumOfSum(dsum);
    var exact := BigSum(addresses) + |segment| + proto + BigSum(segment);
    SameSum(Swap(Chksum(addresses)), BigSum(addresses), Swap(Chksum(segment)), BigSum(segment));
    SameSum(Swap(Chksum(addresses)) + Swap(Chksum(segment)), BigSum(addresses) + BigSum(segment), |segment| + proto, |segment| + proto);
    assert Same(Chksum(ToLe32(dsum)), exact);
    var field := ChecksumField(addresses, proto, segment);
    FieldSame(exact, Chksum(ToLe32(dsum)), field, Word(w[0], w[1]));
  }

  lemma FieldSame(exact: int, folded: int, field: int, word: int)
    requires Same(folded, exact) && field == 0xFFFF - folded
    ensures Same(exact + word, word - field)
  {
    SameUp(exact + word, word - field, folded / 0xFFFF - exact / 0xFFFF - 1);
  }

  /** With the field in network order, every translated segment verifies. */
  lemma TcpVerifies(addresses: seq<byte>, proto: byte, segment: seq<byte>, at: nat)
    requires |addresses| == 32 && 0 < |segment| <= 1500 && proto > 0
    requires at % 2 == 0 && at + 2 <= |segment| && segment[at] == 0 && segment[at + 1] == 0
    ensures Verifies(Received(addresses, proto, Splice(segment, at, Be16(ChecksumField(addresses, proto, segment)))))
  {
    hide BigSum, Fold, Chksum, Swap, Splice, Pseudo, Verifies;
    var w := Be16(ChecksumField(addresses, proto, segment));
    FieldSum(addresses, proto, segment, at, w);
    VerifiesIf(Received(addresses, proto, Splice(segment, at, w)));
  }

  /** With the field in the machine's order, as for UDP, a translated segment
      verifies exactly if the sum that the checksum is taken of is a multiple of
      257, which is when swapping the bytes makes no difference. */
  lemma UdpVerifies(addresses: seq<byte>, proto: byte, segment: seq<byte>, at: nat)
    requires |addresses| == 32 && 0 < |segment| <= 1500 && proto > 0
    requires at % 2 == 0 && at + 2 <= |segment| && segment[at] == 0 && segment[at + 1] == 0
    ensures Verifies(Received(addresses, proto, Splice(segment, at, Le16(ChecksumField(addresses, proto, segment)))))
       <==> BigSum(Received(addresses, proto, segment)) % 257 == 0
  {
    hide BigSum, Fold, Chksum, Swap, Splice, Pseudo, Verifies, ChecksumField, Same, Received, Word, Le16;
    var field := ChecksumField(addresses, proto, segment);
    var w := Le16(field);
    var total, sum := BigSum(Received(addresses, proto, Splice(segment, at, w))), BigSum(Received(addresses, proto, segment));
    FieldSum(addresses, proto, segment, at, w);
    VerifiesIf(Received(addresses, proto, Splice(segment, at, w)));
    SameZero(total, Word(w[0], w[1]) - field);
    SwappedWord(field);
    FieldSum(addresses, proto, segment, at, [0, 0]);
    SpliceOwn(segment, at, [0, 0]);
    ZeroWord();
    EvenField(sum, field);
  }

  /** Swapping the bytes of the field makes no difference exactly if the sum is a
      multiple of 257. */
  lemma EvenField(sum: nat, field: u16)
    requires Same(sum, 0 - field)
    ensures field / 0x100 == field % 0x100 <==> sum % 257 == 0
  {
    hide Same;
    var k := SameMeans(sum, 0 - field);
    var h: int, l: int := field / 0x100, field % 0x100;
    Multiple(sum, 255 * k - h, l - h);
  }

  lemma SameMeans(x: int, y: int) returns (k: int)
    requires Same(x, y)
    ensures x - y == 0xFFFF * k
  {
    k := x / 0xFFFF - y / 0xFFFF;
  }

  lemma Multiple(x: int, q: int, e: int)
    requires x == 257 * q - e && -257 < e < 257
    ensures x % 257 == 0 <==> e == 0
  {
    Remainder(x, if e <= 0 then q else q - 1, if e <= 0 then 0 - e else 257 - e);
  }

  lemma Remainder(x: int, q: int, r: int)
    requires x == 257 * q + r && 0 <= r < 257
    ensures x % 257 == r
  {
  }

  lemma SwappedWord(x: u16)
    ensures Same(Word(Le16(x)[0], Le16(x)[1]) - x, 0) <==> x / 0x100 == x % 0x100
  {
    hide Same;
    var h: int, l: int := x / 0x100, x % 0x100;
    assert Word(Le16(x)[0], Le16(x)[1]) - x == 255 * (l - h);
    Vanishes(l - h);
  }

  lemma Vanishes(e: int)
    requires -257 < e < 257
    ensures Same(255 * e, 0) <==> e == 0
  {
  }

  // ---- from outside to inside ----------------------------------------------------

  /** What the code takes for granted about a packet from outside: a header
      without options, whole ports, a length that is true and that fits. */
  predicate Plausible(p: seq<byte>) {
    && |p| >= 24
    && (p[9] == TCP ==> 40 <= Get16(p, 2) <= |p|) && (p[9] == UDP ==> 28 <= Get16(p, 2) <= |p|)
    && Get16(p, 2) <= 1476
  }

  /** Where the checksum field is in the segment. */
  function FieldAt(proto: byte): nat {
    if proto == TCP then 16 else 6
  }

  /** The addresses of the translated packet. */
  function Addresses(p: seq<byte>, k: Key): (a: seq<byte>)
    requires |p| >= 24
    ensures |a| == 32
  {
    PREFIX + p[12..16] + k.ipv6
  }

  /** The segment with the inner port, and without a checksum. */
  function Readdressed(p: seq<byte>, k: Key): (d: seq<byte>)
    requires Plausible(p) && (p[9] == TCP || p[9] == UDP)
    ensures |d| == Get16(p, 2) - 20 && d[FieldAt(p[9])] == 0 && d[FieldAt(p[9]) + 1] == 0
  {
    Splice(Splice(p[20..Get16(p, 2)], FieldAt(p[9]), [0, 0]), 2, Be16(k.port6))
  }

  function Header(p: seq<byte>, k: Key): (h: seq<byte>)
    requires Plausible(p) && (p[9] == TCP || p[9] == UDP) && p[8] > 0
    ensures |h| == HEADER
  {
    Front(p) + Addresses(p, k)
  }

  /** Version, length, protocol and hop limit. */
  function Front(p: seq<byte>): (h: seq<byte>)
    requires Plausible(p) && (p[9] == TCP || p[9] == UDP) && p[8] > 0
    ensures |h| == 8
  {
    [0x60, 0, 0, 0] + Be16(Get16(p, 2) - 20) + [p[9], p[8] - 1]
  }

  lemma HeaderFilled(was: seq<byte>, front: seq<byte>, addresses: seq<byte>)
    requires |was| == 1500 && |front| == 8 && |addresses| == 32
    ensures var now := Splice(Splice(Splice(was, 2, [0x86, 0xDD]), OFFSET, front), OFFSET + 8, addresses);
            now[2..4] == [0x86, 0xDD] && now[OFFSET..OFFSET + HEADER] == front + addresses
  {
    hide Splice;
    var b1 := Splice(was, 2, [0x86, 0xDD]);
    var b2 := Splice(b1, OFFSET, front);
    SpliceSlice(was, 2, [0x86, 0xDD], 2, 4);
    SpliceSlice(b1, OFFSET, front, 2, 4);
    SpliceSlice(b1, OFFSET, front, OFFSET, OFFSET + 8);
    SpliceSlice(b2, OFFSET + 8, addresses, 2, 4);
    SpliceSlice(b2, OFFSET + 8, addresses, OFFSET, OFFSET + 8);
    SpliceSlice(b2, OFFSET + 8, addresses, OFFSET + 8, OFFSET + HEADER);
    SliceJoin(Splice(b2, OFFSET + 8, addresses), OFFSET, OFFSET + 8, OFFSET + HEADER);
  }

  /** The packet for the device inside. */
  function Translated(p: seq<byte>, k: Key): seq<byte>
    requires Plausible(p) && (p[9] == TCP || p[9] == UDP) && p[8] > 0
  {
    var segment, addresses := Readdressed(p, k), Addresses(p, k);
    var field := ChecksumField(addresses, p[9], segment);
    Header(p, k) + Splice(segment, FieldAt(p[9]), if p[9] == TCP then Be16(field) else Le16(field))
  }

  /** The segment and the addresses in an IPv6 packet, as its receiver sees them. */
  function Seen(packet: seq<byte>): seq<byte>
    requires HEADER <= |packet| <= HEADER + 1500
  {
    Received(packet[8..40], packet[6], packet[40..])
  }

  /** The sum over a datagram from outside, its new addresses and its new port
      that decides whether the checksum of its translation is right. The prefix
      adds nothing to it, and the old port and checksum do not count. */
  function DatagramSum(p: seq<byte>, k: Key): nat
    requires Plausible(p) && p[9] == UDP
  {
    BigSum(p[12..16]) + BigSum(k.ipv6) + (Get16(p, 2) - 20) + UDP +
    Get16(p, 20) + k.port6 + Get16(p, 24) + BigSum(p[28..Get16(p, 2)])
  }

  /** A translated TCP segment always verifies at the device, a UDP datagram only
      if that sum is a multiple of 257. */
  lemma TranslatedVerifies(p: seq<byte>, k: Key)
    requires Plausible(p) && (p[9] == TCP || p[9] == UDP) && p[8] > 0
    ensures var t := Translated(p, k);
            |t| == Get16(p, 2) + 20 && (Verifies(Seen(t)) <==> p[9] == TCP || DatagramSum(p, k) % 257 == 0)
  {
    hide ChecksumField, Pseudo, Verifies, Readdressed, Word, Splice, Header, BigSum, DatagramSum;
    var segment, at := Readdressed(p, k), FieldAt(p[9]);
    var field := ChecksumField(Addresses(p, k), p[9], segment);
    var t := Translated(p, k);
    var w := if p[9] == TCP then Be16(field) else Le16(field);
    HeaderIs(p, k);
    assert t[8..40] == Header(p, k)[8..40] && t[40..] == Splice(segment, at, w) && t[6] == Header(p, k)[6];
    if p[9] == TCP {
      TcpVerifies(Addresses(p, k), p[9], segment, at);
    } else {
      UdpVerifies(Addresses(p, k), p[9], segment, at);
      DatagramSummed(p, k);
    }
  }

  /** Does the receiver take this packet? A UDP checksum of zero is none, and
      without one a datagram is discarded (section 8.1 of RFC 8200). */
  predicate Accepted(packet: seq<byte>)
    requires HEADER + 8 <= |packet| <= HEADER + 1500
  {
    Verifies(Seen(packet)) && (packet[6] == UDP ==> Get16(packet, 46) != 0)
  }

  /** A translated TCP segment is always taken, a UDP datagram exactly if that sum
      is a multiple of 257 but not of 65535, for which the field is zero. */
  lemma TranslatedAccepted(p: seq<byte>, k: Key)
    requires Plausible(p) && (p[9] == TCP || p[9] == UDP) && p[8] > 0
    ensures var t := Translated(p, k);
            && |t| == Get16(p, 2) + 20 && t[6] == p[9]
            && (p[9] == UDP ==> (Get16(t, 46) == 0 <==> DatagramSum(p, k) % 0xFFFF == 0))
            && (Accepted(t) <==> p[9] == TCP || (DatagramSum(p, k) % 257 == 0 && DatagramSum(p, k) % 0xFFFF != 0))
  {
    hide Seen, Translated, DatagramSum, Verifies;
    TranslatedVerifies(p, k);
    TranslatedContent(p, k);
    if p[9] == UDP {
      TranslatedField(p, k);
    }
  }

  /** The field of a translated datagram is zero exactly if that sum vanishes. */
  lemma TranslatedField(p: seq<byte>, k: Key)
    requires Plausible(p) && p[9] == UDP && p[8] > 0
    ensures |Translated(p, k)| == Get16(p, 2) + 20 && (Get16(Translated(p, k), 46) == 0 <==> DatagramSum(p, k) % 0xFFFF == 0)
  {
    hide ChecksumField, Readdressed, Splice, Header, BigSum, DatagramSum, Received, Word;
    var segment := Readdressed(p, k);
    var field := ChecksumField(Addresses(p, k), UDP, segment);
    var w, t := Le16(field), Translated(p, k);
    HeaderIs(p, k);
    SpliceAt(segment, 6, w, 6);
    SpliceAt(segment, 6, w, 7);
    assert t[46] == Splice(segment, 6, w)[6] && t[47] == Splice(segment, 6, w)[7];
    assert Get16(t, 46) == Word(w[0], w[1]);
    ZeroField(Addresses(p, k), UDP, segment, 6);
    DatagramSummed(p, k);
    BytesZero(field);
  }

  lemma BytesZero(x: u16)
    ensures Word(Le16(x)[0], Le16(x)[1]) == 0 <==> x == 0
  {
  }

  /** The field is zero exactly if the sum it is taken of vanishes modulo
      2^16 - 1. */
  lemma ZeroField(addresses: seq<byte>, proto: byte, segment: seq<byte>, at: nat)
    requires |addresses| == 32 && 0 < |segment| <= 1500 && proto > 0
    requires at % 2 == 0 && at + 2 <= |segment| && segment[at] == 0 && segment[at + 1] == 0
    ensures ChecksumField(addresses, proto, segment) == 0 <==> BigSum(Received(addresses, proto, segment)) % 0xFFFF == 0
  {
    hide BigSum, Chksum, Swap, Splice, Received, ChecksumField;
    var field := ChecksumField(addresses, proto, segment);
    FieldSum(addresses, proto, segment, at, [0, 0]);
    SpliceOwn(segment, at, [0, 0]);
    FieldBelow(addresses, proto, segment);
    ZeroWord();
  }

  lemma FieldBelow(addresses: seq<byte>, proto: byte, segment: seq<byte>)
    requires |addresses| == 32 && 0 < |segment| <= 1500 && proto > 0
    ensures ChecksumField(addresses, proto, segment) < 0xFFFF
  {
    hide Chksum, Swap;
    ChksumOfSum(Swap(Chksum(segment)) + Swap(Chksum(addresses)) + |segment| + proto);
  }

  /** The checksum is taken of that sum, and of the prefix. */
  lemma DatagramSummed(p: seq<byte>, k: Key)
    requires Plausible(p) && p[9] == UDP
    ensures BigSum(Received(Addresses(p, k), UDP, Readdressed(p, k))) == DatagramSum(p, k) + 257 * 255
  {
    hide BigSum, Pseudo, Splice, Readdressed, Word;
    var segment := Readdressed(p, k);
    PseudoSum(Addresses(p, k), |segment|, UDP);
    BigSumAppend(Pseudo(Addresses(p, k), |segment|, UDP), segment);
    AddressSum(p, k);
    SegmentSum(p, k);
  }

  lemma AddressSum(p: seq<byte>, k: Key)
    requires |p| >= 24
    ensures BigSum(Addresses(p, k)) == 257 * 255 + BigSum(p[12..16]) + BigSum(k.ipv6)
  {
    hide BigSum;
    BigSumAppend(PREFIX + p[12..16], k.ipv6);
    BigSumAppend(PREFIX, p[12..16]);
    PrefixSum();
  }

  lemma PrefixSum()
    ensures BigSum(PREFIX) == 257 * 255
  {
    var a, b, z := [0x00, 0x64], [0xFF, 0x9B], [0, 0, 0, 0, 0, 0, 0, 0];
    assert PREFIX == a + (b + z);
    BigSumAppend(a, b + z);
    BigSumAppend(b, z);
    BigSumWord(a);
    BigSumWord(b);
    assert BigSum(z) == 0 by {
      assert z[2..] == [0, 0, 0, 0, 0, 0] && z[2..][2..] == [0, 0, 0, 0] && z[2..][2..][2..] == [0, 0];
      BigSumWord([0, 0]);
      assert BigSum(z[2..][2..]) == 0;
    }
  }

  lemma SegmentSum(p: seq<byte>, k: Key)
    requires Plausible(p) && p[9] == UDP
    ensures BigSum(Readdressed(p, k)) == Get16(p, 20) + k.port6 + Get16(p, 24) + BigSum(p[28..Get16(p, 2)])
  {
    hide BigSum, Word;
    var total, inner := Get16(p, 2), Be16(k.port6);
    var rest := p[28..total];
    SegmentIs(p, k);
    BigSumAppend(p[20..22], inner + (p[24..26] + ([0, 0] + rest)));
    BigSumAppend(inner, p[24..26] + ([0, 0] + rest));
    BigSumAppend(p[24..26], [0, 0] + rest);
    BigSumAppend([0, 0], rest);
    BigSumWord(p[20..22]);
    BigSumWord(inner);
    BigSumWord(p[24..26]);
    BigSumWord([0, 0]);
    ZeroWord();
  }

  lemma ReaddressedIs(p: seq<byte>, k: Key)
    requires Plausible(p) && (p[9] == TCP || p[9] == UDP)
    ensures Readdressed(p, k) == Splice(Splice(p[20..Get16(p, 2)], FieldAt(p[9]), [0, 0]), 2, Be16(k.port6))
  {
  }

  lemma SegmentIs(p: seq<byte>, k: Key)
    requires Plausible(p) && p[9] == UDP
    ensures Readdressed(p, k) == p[20..22] + (Be16(k.port6) + (p[24..26] + ([0, 0] + p[28..Get16(p, 2)])))
  {
    hide Splice, Get16, Be16;
    var total := Get16(p, 2);
    var d, inner := p[20..total], Be16(k.port6);
    var e := Splice(d, 6, [0, 0]);
    SplitAround(d, 6, [0, 0]);
    SplitAround(e, 2, inner);
    Pieces(p, total);
    Rejoined(d[..6], [0, 0] + d[8..]);
  }

  lemma Pieces(p: seq<byte>, total: nat)
    requires 28 <= total <= |p|
    ensures var d := p[20..total]; d[..6][..2] == p[20..22] && d[..6][4..] == p[24..26] && d[8..] == p[28..total]
  {
    var d := p[20..total];
    assert forall i | 0 <= i < |d| :: d[i] == p[20 + i];
    var a, b, c := d[..6][..2], d[..6][4..], d[8..];
    assert a[0] == d[0] && a[1] == d[1] && b[0] == d[4] && b[1] == d[5];
    assert forall i | 0 <= i < |c| :: c[i] == d[8 + i] == p[28 + i];
  }

  lemma Rejoined(a: seq<byte>, b: seq<byte>)
    requires |a| >= 4
    ensures (a + b)[..2] == a[..2] && (a + b)[4..] == a[4..] + b
  {
  }

  lemma ZeroWord()
    ensures Word(0, 0) == 0
  {
  }

  /** A datagram whose translation does not verify: from port 53 of 8.8.8.8, to
      the first pseudoport, for port 5683 of 2001:db8::1. */
  lemma UdpFails() returns (p: seq<byte>, k: Key)
    ensures Plausible(p) && p[9] == UDP && p[8] > 0 && !Verifies(Seen(Translated(p, k)))
  {
    hide BigSum, Verifies, Translated, Seen, DatagramSum, Plausible, Get16;
    k := Key([8, 8, 8, 8], 53, 5683, [0x20, 0x01, 0x0D, 0xB8, 0, 0, 0, 0, 0, 0, 0, 0, 0, 0, 0, 1]);
    p := [0x45, 0, 0, 28, 0, 0, 0, 0, 64, UDP, 0, 0, 8, 8, 8, 8, 192, 168, 0, 2, 0, 53, 0xFB, 0xFF, 0, 8, 0, 0];
    DatagramIs(p);
    FourBytes(8, 8, 8, 8);
    DeviceSum(k.ipv6);
    NoBytes();
    SumOf(p, k);
    TranslatedVerifies(p, k);
  }

  lemma DatagramIs(p: seq<byte>)
    requires p == [0x45, 0, 0, 28, 0, 0, 0, 0, 64, UDP, 0, 0, 8, 8, 8, 8, 192, 168, 0, 2, 0, 53, 0xFB, 0xFF, 0, 8, 0, 0]
    ensures |p| == 28 && Plausible(p) && p[9] == UDP && p[8] == 64 && p[28..28] == [] && p[12..16] == [8, 8, 8, 8]
    ensures Get16(p, 2) == 28 && Get16(p, 20) == 53 && Get16(p, 24) == 8
  {
    assert p[2] == 0 && p[3] == 28 && p[20] == 0 && p[21] == 53 && p[24] == 0 && p[25] == 8;
    assert p[12] == 8 && p[13] == 8 && p[14] == 8 && p[15] == 8;
  }

  lemma SumOf(p: seq<byte>, k: Key)
    requires Plausible(p) && p[9] == UDP && Get16(p, 2) == 28 && BigSum(p[28..28]) == 0
    requires BigSum(p[12..16]) == 4112 && BigSum(k.ipv6) == 11706 && Get16(p, 20) == 53 && k.port6 == 5683 && Get16(p, 24) == 8
    ensures DatagramSum(p, k) == 21587 && 21587 % 257 != 0
  {
    hide BigSum, Word;
  }

  lemma NoBytes()
    ensures BigSum([]) == 0
  {
  }

  lemma FourBytes(a: byte, b: byte, c: byte, d: byte)
    ensures BigSum([a, b, c, d]) == Word(a, b) + Word(c, d)
  {
    hide BigSum;
    assert [a, b, c, d] == [a, b] + [c, d];
    BigSumAppend([a, b], [c, d]);
    BigSumWord([a, b]);
    BigSumWord([c, d]);
  }

  lemma DeviceSum(device: seq<byte>)
    requires device == [0x20, 0x01, 0x0D, 0xB8, 0, 0, 0, 0, 0, 0, 0, 0, 0, 0, 0, 1]
    ensures BigSum(device) == 11706
  {
    hide BigSum;
    var a, z, y := [0x20, 0x01, 0x0D, 0xB8], [0, 0, 0, 0], [0, 0, 0, 1];
    assert device == a + (z + (z + y));
    BigSumAppend(a, z + (z + y));
    BigSumAppend(z, z + y);
    BigSumAppend(z, y);
    FourBytes(0x20, 0x01, 0x0D, 0xB8);
    FourBytes(0, 0, 0, 0);
    FourBytes(0, 0, 0, 1);
  }

  lemma HeaderIs(p: seq<byte>, k: Key)
    requires Plausible(p) && (p[9] == TCP || p[9] == UDP) && p[8] > 0
    ensures var h := Header(p, k);
            && h[0..4] == [0x60, 0, 0, 0] && h[8..] == h[8..40] == Addresses(p, k) && Get16(h, 4) == Get16(p, 2) - 20 && h[6] == p[9] && h[7] == p[8] - 1
            && h[8..20] == PREFIX && h[20..24] == p[12..16] && h[24..40] == k.ipv6
  {
    hide Word;
  }

  /** Does `t`, an IPv6 packet without traffic class or flow label, bring to the
      device of `k` what `p` brings? The peer's address is behind the prefix, the
      inner address and port are in place, the hop limit is one less, and the rest
      of the segment but the checksum is as it was. */
  predicate Conveys(t: seq<byte>, p: seq<byte>, k: Key)
    requires Plausible(p) && (p[9] == TCP || p[9] == UDP) && p[8] > 0
  {
    var total, field := Get16(p, 2), if p[9] == TCP then 36 else 26;
    && |t| == total + 20 && t[0..4] == [0x60, 0, 0, 0]
    && 0x100 * (t[4] as int) + (t[5] as int) == total - 20 && t[6] == p[9] && t[7] == p[8] - 1
    && t[8..20] == [0x00, 0x64, 0xFF, 0x9B, 0, 0, 0, 0, 0, 0, 0, 0] && t[20..24] == p[12..16] && t[24..40] == k.ipv6
    && t[40] == p[20] && t[41] == p[21] && 0x100 * (t[42] as int) + (t[43] as int) == k.port6
    && forall i | 24 <= i < total && !(field <= i < field + 2) :: t[i + 20] == p[i]
  }

  /** Apart from the checksum, the device gets what was sent. */
  lemma TranslatedContent(p: seq<byte>, k: Key)
    requires Plausible(p) && (p[9] == TCP || p[9] == UDP) && p[8] > 0
    ensures Conveys(Translated(p, k), p, k)
  {
    hide ChecksumField, Splice, Word, Header;
    var segment, at := Readdressed(p, k), FieldAt(p[9]);
    var field := ChecksumField(Addresses(p, k), p[9], segment);
    var w := if p[9] == TCP then Be16(field) else Le16(field);
    var t, h, d := Translated(p, k), Header(p, k), p[20..Get16(p, 2)];
    HeaderIs(p, k);
    assert t[8..20] == h[8..20] && t[20..24] == h[20..24] && t[24..40] == h[24..40];
    assert t[0..4] == h[0..4] && t[4] == h[4] && t[5] == h[5] && t[6] == h[6] && t[7] == h[7];
    forall j | 0 <= j < |d|
      ensures t[j + 40] == if at <= j < at + 2 then w[j - at] else if 2 <= j < 4 then Be16(k.port6)[j - 2] else d[j]
    {
      assert t[j + 40] == Splice(segment, at, w)[j];
      SpliceAt(segment, at, w, j);
      SpliceAt(Splice(d, at, [0, 0]), 2, Be16(k.port6), j);
      SpliceAt(d, at, [0, 0], j);
    }
    forall i | 24 <= i < Get16(p, 2) && !(20 + at <= i < 22 + at)
      ensures t[i + 20] == p[i]
    {
      var j := i - 20;
      assert t[j + 40] == d[j];
    }
    assert t[40] == d[0] && t[41] == d[1];
    var inner := Be16(k.port6);
    assert d[2] == p[22] && d[3] == p[23] && t[42] == inner[0] && t[43] == inner[1];
    WordIs(h[4], h[5]);
    WordIs(inner[0], inner[1]);
  }

  lemma SentConveys(b: seq<byte>, p: seq<byte>, k: Key)
    requires Plausible(p) && (p[9] == TCP || p[9] == UDP) && p[8] > 0 && OFFSET + 20 + Get16(p, 2) <= |b|
    requires b[OFFSET..OFFSET + 20 + Get16(p, 2)] == Translated(p, k)
    ensures Conveys(b[4..24 + Get16(p, 2)], p, k) && b[4..8] == [0x60, 0, 0, 0]
  {
    hide Translated;
    TranslatedContent(p, k);
    assert b[4..8] == b[4..24 + Get16(p, 2)][0..4];
  }

  lemma WordIs(hi: byte, lo: byte)
    ensures Word(hi, lo) == 0x100 * (hi as int) + (lo as int)
  {
  }

  lemma InboundKeeps(rows: seq<Row>, refreshes: bool, ipv4: Ipv4, port4: u16, pseudoport: u16)
    ensures var (rows', found) := Inbound(rows, refreshes, ipv4, port4, pseudoport);
            |rows'| == |rows| && (found.Some? ==> found.value < |rows| && rows'[found.value].key == rows[found.value].key)
  {
  }

  class Translator {
    const tcp: Table
    const udp: Table
    const sendBuffer: array<byte>

    ghost predicate Valid()
      reads tcp.rows, udp.rows
    {
      && tcp.Valid() && udp.Valid() && tcp.refreshes && !udp.refreshes && tcp.rows != udp.rows && sendBuffer.Length == 1500
    }

    constructor Init()
      ensures Valid() && fresh(tcp.rows) && fresh(udp.rows) && fresh(sendBuffer)
    {
      tcp := new Table.Init(true);
      udp := new Table.Init(false);
      sendBuffer := new byte[1500](_ => 0);
    }

    /** Time passes in both tables. */
    method Feed(feed: u32)
      requires Valid()
      modifies tcp.rows, udp.rows
      ensures Valid()
      ensures tcp.rows[..] == AllFed(old(tcp.rows[..]), feed) && udp.rows[..] == AllFed(old(udp.rows[..]), feed)
    {
      tcp.Feed(feed);
      udp.Feed(feed);
      assert forall i | 0 <= i < ROWS :: tcp.rows[i] == tcp.rows[..][i] && udp.rows[i] == udp.rows[..][i];
    }

    /** `nat64_input`: a packet from outside, and how much of the send buffer goes
        to the tunnel, if any. */
    method Input(po: array<byte>) returns (sent: Option<nat>)
      requires Valid() && po != sendBuffer && Plausible(po[..])
      modifies tcp.rows, udp.rows, sendBuffer
      ensures Valid()
      ensures var p, was := old(po[..]), old(if po[9] == TCP then tcp.rows[..] else udp.rows[..]);
              var (rows, found) := Inbound(was, po[9] == TCP, p[12..16], Get16(p, 20), Get16(p, 22));
              && tcp.rows[..] == (if p[9] == TCP then rows else old(tcp.rows[..]))
              && udp.rows[..] == (if p[9] == UDP then rows else old(udp.rows[..]))
              && (sent.Some? <==> (p[9] == TCP || p[9] == UDP) && found.Some? && p[8] > 0)
              && (sent.Some? ==>
                    && sent.value == OFFSET + 20 + Get16(p, 2) && sendBuffer[2..4] == [0x86, 0xDD]
                    && sendBuffer[4..sent.value] == Translated(p, was[found.value].key)
                    && Conveys(sendBuffer[4..sent.value], p, was[found.value].key) && sendBuffer[4..8] == [0x60, 0, 0, 0])
      {
      hide Translated, Readdressed, Inbound, Sound, Conveys;
      var destPort, sourcePort := Word(po[20], po[21]), Word(po[22], po[23]);
      var found, k;
      if po[9] == UDP {
        found := udp.Find(po[12..16], destPort, sourcePort);
        InboundKeeps(old(udp.rows[..]), false, po[12..16], destPort, sourcePort);
        if found.Some? {
          k := udp.rows[found.value].key;
        }
      } else if po[9] == TCP {
        found := tcp.Find(po[12..16], destPort, sourcePort);
        InboundKeeps(old(tcp.rows[..]), true, po[12..16], destPort, sourcePort);
        if found.Some? {
          k := tcp.rows[found.value].key;
        }
      } else {
        return None;
      }
      if found.None? || po[8] == 0 {
        return None;
      }
      FillHeader(po, k);
      ghost var b1 := sendBuffer[..];
      FillSegment(po, k);
      ghost var b2 := sendBuffer[..];
      SameSlices(b1, b2, OFFSET + HEADER, 2, 4);
      SameSlices(b1, b2, OFFSET + HEADER, OFFSET, OFFSET + HEADER);
      Seal(po, k);
      SameSlices(b2, sendBuffer[..], OFFSET, 2, 4);
      SentConveys(sendBuffer[..], po[..], k);
      return Some(OFFSET + 20 + Get16(po[..], 2));
    }

    /** Copies bytes into the send buffer. */
    method Put(at: nat, d: seq<byte>)
      requires at + |d| <= sendBuffer.Length
      modifies sendBuffer
      ensures sendBuffer[..] == Splice(old(sendBuffer[..]), at, d)
    {
      forall i | 0 <= i < |d| {
        sendBuffer[at + i] := d[i];
      }
    }

    method FillHeader(po: array<byte>, k: Key)
      requires sendBuffer.Length == 1500 && po != sendBuffer && Plausible(po[..]) && po[8] > 0 && (po[9] == TCP || po[9] == UDP)
      modifies sendBuffer
      ensures sendBuffer[2..4] == [0x86, 0xDD] && sendBuffer[OFFSET..OFFSET + HEADER] == Header(po[..], k)
    {
      hide Splice, Front, Addresses;
      ghost var was := sendBuffer[..];
      Put(2, [0x86, 0xDD]);
      Put(OFFSET, Front(po[..]));
      Put(OFFSET + 8, Addresses(po[..], k));
      HeaderFilled(was, Front(po[..]), Addresses(po[..], k));
    }

    /** Copies the segment, clears its checksum and sets the inner port. */
    method FillSegment(po: array<byte>, k: Key)
      requires sendBuffer.Length == 1500 && po != sendBuffer && Plausible(po[..]) && po[8] > 0 && (po[9] == TCP || po[9] == UDP)
      modifies sendBuffer
      ensures sendBuffer[..OFFSET + HEADER] == old(sendBuffer[..OFFSET + HEADER])
      ensures sendBuffer[OFFSET + HEADER..OFFSET + 20 + Get16(po[..], 2)] == Readdressed(po[..], k)
    {
      hide Splice, Word, Readdressed;
      var total, start: nat := Word(po[2], po[3]), OFFSET + HEADER;
      ghost var was := sendBuffer[..];
      var d := po[20..total];
      assert po[..][20..total] == d;
      Put(start, d);
      Put(start + FieldAt(po[9]), [0, 0]);
      Put(start + 2, Be16(k.port6));
      SpliceInside(was, start, d, FieldAt(po[9]), [0, 0]);
      SpliceInside(was, start, Splice(d, FieldAt(po[9]), [0, 0]), 2, Be16(k.port6));
      ReaddressedIs(po[..], k);
      SpliceSlice(was, start, Readdressed(po[..], k), start, start + |d|);
      SpliceSlice(was, start, Readdressed(po[..], k), 0, start);
      assert was[0..start] == was[..start] && sendBuffer[0..start] == sendBuffer[..start];
    }

    /** Computes the checksum and stores it: for TCP in network order, for UDP as
        it is. */
    method Seal(po: array<byte>, k: Key)
      requires sendBuffer.Length == 1500 && po != sendBuffer && Plausible(po[..]) && po[8] > 0 && (po[9] == TCP || po[9] == UDP)
      requires sendBuffer[OFFSET..OFFSET + HEADER] == Header(po[..], k)
      requires sendBuffer[OFFSET + HEADER..OFFSET + 20 + Get16(po[..], 2)] == Readdressed(po[..], k)
      modifies sendBuffer
      ensures sendBuffer[..OFFSET] == old(sendBuffer[..OFFSET])
      ensures sendBuffer[OFFSET..OFFSET + 20 + Get16(po[..], 2)] == Translated(po[..], k)
    {
      hide Header, ChecksumField, Word, Readdressed, Splice;
      ghost var was := sendBuffer[..];
      var total, start: nat := Word(po[2], po[3]), OFFSET + HEADER;
      var field := ChecksumField(sendBuffer[12..start], po[9], sendBuffer[start..20 + OFFSET + total]);
      ghost var h, segment := Header(po[..], k), Readdressed(po[..], k);
      HeaderIs(po[..], k);
      assert was[12..start] == was[OFFSET..start][8..] == Addresses(po[..], k);
      assert field == ChecksumField(Addresses(po[..], k), po[9], segment);
      var w := if po[9] == TCP then Be16(field) else Le16(field);
      Put(start + FieldAt(po[9]), w);
      SpliceSlice(was, start + FieldAt(po[9]), w, OFFSET, start);
      SpliceSlice(was, start + FieldAt(po[9]), w, 0, OFFSET);
      SpliceOwn(was, start, segment);
      SpliceInside(was, start, segment, FieldAt(po[9]), w);
      SpliceSlice(was, start, Splice(segment, FieldAt(po[9]), w), start, start + |segment|);
      ghost var now := sendBuffer[..];
      SliceJoin(now, OFFSET, start, start + |segment|);
      assert now[0..OFFSET] == now[..OFFSET] && was[0..OFFSET] == was[..OFFSET];
    }

    /** `nat_convert_6to4`: a packet from inside gets its pseudoport. Returns where
        its segment starts, or why it cannot be translated, and the destination,
        TTL and protocol for the IPv4 header. */
    method Convert(data: array<byte>, len: nat) returns (rc: int, dest: Ipv4, ttl: byte, proto: byte)
      requires Valid() && len <= data.Length
      modifies tcp.rows, udp.rows, data
      ensures Valid()
      ensures rc == if len < 48 then -1 else if old(data[28..40]) != PREFIX then -2
                    else if old(data[10]) != UDP && old(data[10]) != TCP then -3
                    else if Outbound(old(if data[10] == TCP then tcp.rows[..] else udp.rows[..]), old(data[10]) == TCP,
                                     Conversation(old(data[..]))).1 == 0 then -4 else 44
      ensures rc == 44 || rc == -4 ==>
                var k, hops: int := Conversation(old(data[..])), old(data[11]);
                var (rows, pseudoport) := Outbound(old(if data[10] == TCP then tcp.rows[..] else udp.rows[..]), old(data[10]) == TCP, k);
                && tcp.rows[..] == (if old(data[10]) == TCP then rows else old(tcp.rows[..]))
                && udp.rows[..] == (if old(data[10]) == UDP then rows else old(udp.rows[..]))
                && (rc == 44 ==>
                      && data[..] == Splice(old(data[..]), 44, Be16(pseudoport))
                      && dest == k.ipv4 && ttl == (hops + 0xFF) % 0x100 && proto == old(data[10]))
      ensures rc < 0 ==> data[..] == old(data[..])
      ensures rc < 0 && rc != -4 ==> tcp.rows[..] == old(tcp.rows[..]) && udp.rows[..] == old(udp.rows[..])
    {
      hide Outbound, Sound;
      dest, ttl, proto := [0, 0, 0, 0], 0, 0;
      if len < 48 {
        return -1, dest, ttl, proto;
      }
      ghost var was := data[..];
      assert was[28..40] == data[28..40];
      if data[28..40] != PREFIX {
        return -2, dest, ttl, proto;
      }
      var ports, portd := Word(data[44], data[45]), Word(data[46], data[47]);
      dest := data[40..44];
      var k := Key(dest, portd, ports, data[12..28]);
      assert k == Conversation(was);
      var pseudoport;
      if data[10] == UDP {
        pseudoport := udp.FindOrAdd(k);
      } else if data[10] == TCP {
        pseudoport := tcp.FindOrAdd(k);
      } else {
        return -3, dest, ttl, proto;
      }
      if pseudoport == 0 {
        return -4, dest, ttl, proto;
      }
      data[44], data[45] := pseudoport / 0x100, pseudoport % 0x100;
      ttl, proto := if data[11] == 0 then 0xFF else data[11] - 1, data[10];
      return 44, dest, ttl, proto;
    }
  }

  /** The conversation that a packet from inside, in the tunnel's buffer, belongs to. */
  function Conversation(data: seq<byte>): Key
    requires |data| >= 48
  {
    Key(data[40..44], Get16(data, 46), Get16(data, 44), data[12..28])
  }

  /** A reply to a translated packet, from where that went and to the pseudoport it
      came from, reaches the device and the port the packet was sent from,
      whatever happened in between, as long as the binding lasts. */
  lemma ReplyReturns(rows: seq<Row>, refreshes: bool, data: seq<byte>, events: seq<Event>, p: seq<byte>)
    requires Sound(rows) && |data| >= 48 && Outbound(rows, refreshes, Conversation(data)).1 != 0
    requires Plausible(p) && (p[9] == TCP || p[9] == UDP) && p[8] > 0
    requires p[12..16] == data[40..44] && Get16(p, 20) == Get16(data, 46)
    requires Get16(p, 22) == Outbound(rows, refreshes, Conversation(data)).1
    ensures var (rows1, port) := Outbound(rows, refreshes, Conversation(data));
            && FIRST_PORT <= port && port - FIRST_PORT < |rows1|
            && (IdleAfter(refreshes, Conversation(data), port - FIRST_PORT, rows1[port - FIRST_PORT].timeout, events).Some? ==>
                  var rows2 := Steps(rows1, refreshes, events);
                  var found := Inbound(rows2, refreshes, p[12..16], Get16(p, 20), Get16(p, 22)).1;
                  && found.Some? && found.value < |rows2|
                  && var t := Translated(p, rows2[found.value].key);
                     |t| >= 44 && t[24..40] == data[12..28] && Get16(t, 42) == Get16(data, 44))
  {
    hide Outbound, Inbound, Steps, IdleAfter, Translated, Word, Sound;
    var k := Conversation(data);
    BindingStable(rows, refreshes, k, events);
    TranslatedContent(p, k);
    WordIs(Translated(p, k)[42], Translated(p, k)[43]);
  }
}
