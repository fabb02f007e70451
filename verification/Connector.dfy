/** Lines of text with a checksum over a serial line. */
module Connectors {
  import opened Bytes
  import opened Options
  import opened Hexadecimal

  const MESSAGE_SIZE := 512
  const LF: byte := 0x0A
  const CR: byte := 0x0D
  const HASH: byte := 0x23
  const PERCENT: byte := 0x25

  // ---- sending -----------------------------------------------------------------------

  predicate IsLineEnd(c: byte) {
    c == CR || c == LF
  }

  /** A text without the line ends at its end. */
  function Trimmed(m: seq<byte>): (t: seq<byte>)
    ensures t <= m && (t == [] || !IsLineEnd(t[|t| - 1])) && forall i | |t| <= i < |m| :: m[i] == 0x0D || m[i] == 0x0A
  {
    if m != [] && IsLineEnd(m[|m| - 1]) then Trimmed(m[..|m| - 1]) else m
  }

  function UpperDigit(x: nat): byte
    requires x < 16
  {
    if x < 10 then 0x30 + x else 0x41 + x - 10
  }

  /** `#%02X\r\n`. */
  function Trailer(crc: nat): (d: seq<byte>)
    requires crc < 0x100
    ensures |d| == 5
  {
    [HASH, UpperDigit(crc / 16), UpperDigit(crc % 16), CR, LF]
  }

  /** What is sent for a message. */
  function Framed(m: seq<byte>): seq<byte> {
    XorAllBound(Trimmed(m));
    Trimmed(m) + Trailer(XorAll(Trimmed(m)))
  }

  // ---- receiving ------------------------------------------------------------------------

  function SkipBlank(s: seq<byte>): seq<byte> {
    if s != [] && (s[0] == 0x20 || 0x09 <= s[0] <= 0x0D) then SkipBlank(s[1..]) else s
  }

  /** The value of the hexadecimal digits at the start. */
  function HexPrefix(s: seq<byte>, before: nat): nat {
    if s != [] && HexValue(s[0]).Some? then HexPrefix(s[1..], before * 16 + HexValue(s[0]).value) else before
  }

  /** `strtoul` in base 16, with 32-bit results: white space, a sign and a `0x`
      may come first, and what is too large is cut down to the largest value. */
  function Strtoul16(s: seq<byte>): u32 {
    var t := SkipBlank(CString(s));
    var negative := t != [] && t[0] == 0x2D;
    var u := if t != [] && (t[0] == 0x2D || t[0] == 0x2B) then t[1..] else t;
    var w := if |u| >= 3 && u[0] == 0x30 && (u[1] == 0x78 || u[1] == 0x58) && HexValue(u[2]).Some? then u[2..] else u;
    var x := HexPrefix(w, 0);
    if x > 0xFFFF_FFFF then 0xFFFF_FFFF
    else if negative then (0x1_0000_0000 - x) % 0x1_0000_0000
    else x
  }

  /** The last `#`. */
  function LastHash(s: seq<byte>): (r: Option<nat>)
    ensures r.Some? ==> r.value < |s| && s[r.value] == HASH && forall i | r.value < i < |s| :: s[i] != HASH
    ensures r.None? ==> HASH !in s
  {
    if s == [] then None
    else if s[|s| - 1] == HASH then Some(|s| - 1)
    else LastHash(s[..|s| - 1])
  }

  /** What has been received. */
  datatype Line = Line(buffered: seq<byte>, msg: seq<byte>, valid: bool)

  /** The end of a line: only a message with the right checksum is accepted. */
  function Ended(l: Line): Line {
    var pos := LastHash(l.buffered);
    if pos.Some? && Strtoul16(l.buffered[pos.value + 1..]) % 0x100 == XorAll(CString(l.buffered[..pos.value])) then
      Line([], l.buffered[..pos.value], true)
    else
      Line([], [], false)
  }

  function Received(l: Line, c: byte): Line {
    if c == LF then Ended(l)
    else if c == CR then l
    else l.(buffered := l.buffered + [c])
  }

  function AllReceived(l: Line, d: seq<byte>): Line {
    if d == [] then l else Received(AllReceived(l, d[..|d| - 1]), d[|d| - 1])
  }

  /** Can these characters be part of a message? */
  predicate Plain(d: seq<byte>) {
    forall i | 0 <= i < |d| :: d[i] != CR && d[i] != LF && d[i] != 0
  }

  lemma {:induction false} PlainBuffered(l: Line, d: seq<byte>)
    requires Plain(d)
    ensures AllReceived(l, d) == l.(buffered := l.buffered + d)
  {
    if d == [] {
      assert l.buffered + d == l.buffered;
    } else {
      PlainBuffered(l, d[..|d| - 1]);
      assert l.buffered + d[..|d| - 1] + [d[|d| - 1]] == l.buffered + d;
    }
  }

  lemma {:induction false} WholeString(s: seq<byte>)
    requires Plain(s)
    ensures CString(s) == s
  {
    if s != [] {
      WholeString(s[1..]);
    }
  }

  lemma UpperDigitRead(x: nat)
    requires x < 16
    ensures HexValue(UpperDigit(x)) == Some(x) && UpperDigit(x) != HASH && UpperDigit(x) != 0x2D && UpperDigit(x) != 0x2B
    ensures UpperDigit(x) != 0x78 && UpperDigit(x) != 0x58 && UpperDigit(x) > 0x20
  {
  }

  /** The checksum in the trailer is read as it was. */
  lemma ChecksumRead(crc: nat)
    requires crc < 0x100
    ensures Strtoul16([UpperDigit(crc / 16), UpperDigit(crc % 16)]) == crc
  {
    hide UpperDigit, HexValue;
    var high, low := crc / 16, crc % 16;
    UpperDigitRead(high);
    UpperDigitRead(low);
    var s := [UpperDigit(high), UpperDigit(low)];
    assert s[1..] == [UpperDigit(low)] && s[1..][1..] == [];
    assert CString(s[1..][1..]) == [];
    assert CString(s[1..]) == s[1..];
    assert CString(s) == s && SkipBlank(s) == s;
    assert HexPrefix(s[1..], high) == crc by {
      assert HexPrefix([], crc) == crc;
    }
  }

  lemma LineEnds(l: Line, text: seq<byte>)
    requires Plain(text)
    ensures AllReceived(l, text + [CR, LF]) == Ended(l.(buffered := l.buffered + text))
  {
    hide Ended;
    PlainBuffered(l, text);
    var line := text + [CR, LF];
    var most := text + [CR];
    assert line[..|line| - 1] == most && most[..|most| - 1] == text;
    assert AllReceived(l, most) == Received(AllReceived(l, text), CR);
    assert AllReceived(l, line) == Received(AllReceived(l, most), LF);
  }

  /** The end of a line of plain text with a checksum. */
  lemma EndedIs(l: Line, d: seq<byte>, high: byte, low: byte)
    requires Plain(d) && l.buffered == d + [HASH, high, low] && high != HASH && low != HASH
    ensures Ended(l) == if Strtoul16([high, low]) % 0x100 == XorAll(d) then Line([], d, true) else Line([], [], false)
  {
    hide Strtoul16, CString, LastHash;
    LastHashIs(l.buffered, |d|);
    assert l.buffered[..|d|] == d && l.buffered[|d| + 1..] == [high, low];
    WholeString(d);
  }

  /** A line of plain text `d` with the trailer for `crc`: accepted exactly if that
      is the checksum of the text. Any `#` in the text does no harm. */
  lemma LineReceived(l: Line, d: seq<byte>, crc: nat)
    requires Plain(d) && crc < 0x100 && l.buffered == []
    ensures AllReceived(l, d + Trailer(crc)) == if crc == XorAll(d) then Line([], d, true) else Line([], [], false)
  {
    hide UpperDigit, Strtoul16, Ended, XorAll, AllReceived;
    var high, low := UpperDigit(crc / 16), UpperDigit(crc % 16);
    UpperDigitRead(crc / 16);
    UpperDigitRead(crc % 16);
    var text := d + [HASH, high, low];
    assert d + Trailer(crc) == text + [CR, LF];
    LineEnds(l, text);
    assert l.buffered + text == text;
    EndedIs(l.(buffered := text), d, high, low);
    ChecksumRead(crc);
  }

  /** What the end of any line makes of it: the line is over, and accepted exactly
      if behind its last `#` stands the checksum of what is before that. */
  lemma EndedExactly(l: Line)
    ensures var r, s := Ended(l), l.buffered;
            && r.buffered == []
            && (r.valid <==> exists k | 0 <= k < |s| ::
                  s[k] == 0x23 && 0x23 !in s[k + 1..] && Strtoul16(s[k + 1..]) % 0x100 == XorAll(CString(s[..k])))
            && (if r.valid then |r.msg| < |s| && s[..|r.msg|] == r.msg && s[|r.msg|] == 0x23 && 0x23 !in s[|r.msg| + 1..] else r.msg == [])
  {
    hide Strtoul16, XorAll, CString, LastHash;
    var s, pos := l.buffered, LastHash(l.buffered);
    forall k | 0 <= k < |s| && s[k] == HASH && HASH !in s[k + 1..]
      ensures pos == Some(k)
    {
      assert forall i | k < i < |s| :: s[i] == s[k + 1..][i - k - 1];
      LastHashIs(s, k);
    }
    if pos.Some? {
      assert HASH !in s[pos.value + 1..];
    }
  }

  /** A line without a `#` is refused. */
  lemma NoHash(l: Line, d: seq<byte>)
    requires Plain(d) && HASH !in l.buffered && HASH !in d
    ensures AllReceived(l, d + [CR, LF]) == Line([], [], false)
  {
    LineEnds(l, d);
    assert HASH !in l.buffered + d;
  }

  /** The trailer in capital digits. */
  lemma TrailerIs(crc: nat)
    requires crc < 0x100
    ensures var digits := "0123456789ABCDEF";
            Trailer(crc) == [0x23, digits[crc / 16] as int, digits[crc % 16] as int, 0x0D, 0x0A]
  {
  }

  lemma LastHashIs(s: seq<byte>, k: nat)
    requires k < |s| && s[k] == HASH && forall i | k < i < |s| :: s[i] != HASH
    ensures LastHash(s) == Some(k)
  {
    hide LastHash;
    assert HASH in s;
  }

  /** What is sent is received, without the line ends at its end. */
  lemma FramedReceived(l: Line, m: seq<byte>)
    requires l.buffered == [] && Plain(Trimmed(m))
    ensures AllReceived(l, Framed(m)) == Line([], Trimmed(m), true)
    ensures Plain(m) ==> Trimmed(m) == m
  {
    XorAllBound(Trimmed(m));
    LineReceived(l, Trimmed(m), XorAll(Trimmed(m)));
  }

  /** Any one character of the message changed on the way makes the line refused. */
  lemma CorruptionDetected(l: Line, m: seq<byte>, k: nat, c: byte)
    requires l.buffered == [] && Plain(Trimmed(m)) && k < |Trimmed(m)| && c != Trimmed(m)[k]
    requires c != CR && c != LF && c != 0
    ensures k < |Framed(m)| && AllReceived(l, Framed(m)[k := c]) == Line([], [], false)
  {
    var t := Trimmed(m);
    XorAllBound(t);
    assert Framed(m)[k := c] == t[k := c] + Trailer(XorAll(t));
    LineReceived(l, t[k := c], XorAll(t));
    XorDetects(0, t, k, c);
  }

  // ---- the buffers ------------------------------------------------------------------------

  /** Does this buffer hold the string `s`? */
  predicate HoldsString(b: seq<byte>, s: seq<byte>) {
    |s| < |b| && b[..|s|] == s && b[|s|] == 0 && forall i | 0 <= i < |s| :: s[i] != 0
  }

  method Strlen(buffer: array<byte>, ghost s: seq<byte>) returns (n: nat)
    requires HoldsString(buffer[..], s)
    ensures n == |s|
  {
    n := 0;
    assert buffer[..][|s|] == buffer[|s|];
    assert forall i | 0 <= i < |s| :: buffer[i] == buffer[..][..|s|][i] == s[i];
    while buffer[n] != 0
      invariant n <= |s|
      decreases |s| - n
    {
      n := n + 1;
    }
  }

  /** `calc_crc`. */
  method CalcCrc(buffer: array<byte>, ghost s: seq<byte>) returns (crc8: nat)
    requires HoldsString(buffer[..], s)
    ensures crc8 == XorAll(s) < 0x100
  {
    hide Xor;
    crc8 := 0;
    var n := Strlen(buffer, s);
    for i := 0 to n
      invariant crc8 == XorAll(s[..i])
    {
      assert s[..i + 1][..i] == s[..i] && s[i] == buffer[..][i];
      crc8 := Xor(crc8, buffer[i]);
    }
    assert s[..n] == s;
    XorAllBound(s);
  }

  /** `trim_crlf`: cuts line ends off in place. The result promised in its comments
      is always 0. */
  method TrimCrlf(data: array<byte>, ghost s: seq<byte>) returns (resp: nat)
    requires HoldsString(data[..], s)
    modifies data
    ensures HoldsString(data[..], Trimmed(s)) && resp == 0
  {
    resp := 0;
    var n := Strlen(data, s);
    assert s[..n] == s;
    while n > 0
      invariant n <= |s| < data.Length && HoldsString(data[..], s[..n]) && Trimmed(s[..n]) == Trimmed(s)
      invariant n == 0 ==> resp == 0
    {
      assert data[..][n - 1] == s[..n][n - 1] && s[..n][..n - 1] == s[..n - 1];
      if data[n - 1] == CR || data[n - 1] == LF {
        data[n - 1] := 0;
        resp := n - 1;
        n := n - 1;
      } else {
        return 0;
      }
    }
  }

  class Connector {
    var msg: seq<byte>
    var msgBuffered: seq<byte>
    var msgValid: bool

    ghost function State(): Line
      reads this
    {
      Line(msgBuffered, msg, msgValid)
    }

    constructor ()
      ensures State() == Line([], [], false)
    {
      msg, msgBuffered, msgValid := [], [], false;
    }

    /** The message that has come in, once. */
    method Read() returns (r: Option<seq<byte>>)
      modifies this
      ensures r == if old(msgValid && msg != []) then Some(old(msg)) else None
      ensures State() == if r.Some? then Line(old(msgBuffered), [], false) else old(State())
    {
      if msgValid {
        if |msg| == 0 {
          return None;
        }
        r := Some(msg);
        msgValid := false;
        msg := [];
        return r;
      }
      return None;
    }

    /** `write`, of a text that has been formatted already, cut to the buffer, and
        holds no `%`, which would be formatted once more. What is sent. */
    method Write(text: Chars) returns (sent: seq<byte>)
      requires |Trimmed(text[..if |text| < MESSAGE_SIZE then |text| else MESSAGE_SIZE - 1])| + 5 < MESSAGE_SIZE
      requires PERCENT !in text
      ensures sent == Framed(text[..if |text| < MESSAGE_SIZE then |text| else MESSAGE_SIZE - 1])
    {
      hide Trailer;
      var n := if |text| < MESSAGE_SIZE then |text| else MESSAGE_SIZE - 1;
      var buffer := new byte[MESSAGE_SIZE](i => if 0 <= i < n then text[i] else 0);
      ghost var s := text[..n];
      assert buffer[..][..n] == s && buffer[..][n] == 0;
      var resp := TrimCrlf(buffer, s);
      ghost var t := Trimmed(s);
      var crc8 := CalcCrc(buffer, t);
      var tmp := Trailer(crc8);
      var end := Strlen(buffer, t);
      ghost var was := buffer[..];
      Strcpy(buffer, end, tmp);
      sent := buffer[..end + |tmp|];
      assert sent == Splice(was, end, tmp)[..end + |tmp|];
      SplicePrefix(was, end, tmp);
    }

    method Strcpy(buffer: array<byte>, at: nat, s: seq<byte>)
      requires at + |s| <= buffer.Length
      modifies buffer
      ensures buffer[..] == Splice(old(buffer[..]), at, s)
    {
      forall i | 0 <= i < |s| {
        buffer[at + i] := s[i];
      }
    }

    /** `_received_char`. */
    method ReceivedChar(c: byte)
      modifies this
      ensures State() == Received(old(State()), c)
    {
      if c == LF {
        var pos := LastHash(msgBuffered);
        if pos.None? {
          msgValid := false;
          msg := [];
          msgBuffered := [];
          return;
        } else {
          var crcExpected := Strtoul16(msgBuffered[pos.value + 1..]) % 0x100;
          msgBuffered := msgBuffered[..pos.value];
          var crcCalculated := XorAll(CString(msgBuffered));
          if crcExpected != crcCalculated {
            msgValid := false;
            msg := [];
            msgBuffered := [];
            return;
          }
        }
        msg := msgBuffered;
        msgBuffered := [];
        msgValid := true;
      } else if c == CR {
      } else {
        msgBuffered := msgBuffered + [c];
      }
    }

    /** The interrupts of a whole series of characters. */
    method ReceivedAll(d: seq<byte>)
      modifies this
      ensures State() == AllReceived(old(State()), d)
    {
      hide Received;
      for i := 0 to |d|
        invariant State() == AllReceived(old(State()), d[..i])
      {
        assert d[..i + 1][..i] == d[..i];
        ReceivedChar(d[i]);
      }
      assert d[..|d|] == d;
    }
  }

  /** A message from one end of the line to the other. */
  method Transmit(from: Connector, to: Connector, text: Chars) returns (r: Option<seq<byte>>)
    requires to.State().buffered == [] && Plain(text) && 0 < |text| <= MESSAGE_SIZE - 6 && PERCENT !in text
    modifies to
    ensures r == Some(text)
  {
    hide Framed, AllReceived, Trimmed;
    assert text[..|text|] == text;
    FramedReceived(to.State(), text);
    var sent := from.Write(text);
    to.ReceivedAll(sent);
    r := to.Read();
  }
}
