/** The binary messages: a version, eight argument types of four bits each, and
    the arguments, numbers with the high byte first and strings with a NUL. */
module Messages {
  import opened Bytes
  import opened Options

  const MAX_PAYLOAD := 1536
  const VERSION_1: byte := 0x01
  const NO_TYPE: byte := 0
  const BOOL_TYPE: byte := 1
  const INT_TYPE: byte := 2
  const FLOAT_TYPE: byte := 3
  const STRING_TYPE: byte := 4

  type int32 = x: int | -0x8000_0000 <= x < 0x8000_0000

  /** An argument; a float is known by its bits. */
  datatype Arg = Int(i: int32) | Bool(b: bool) | Float(bits: u32) | Str(s: Chars)

  function TypeOf(a: Arg): byte {
    match a case Int(_) => INT_TYPE case Bool(_) => BOOL_TYPE case Float(_) => FLOAT_TYPE case Str(_) => STRING_TYPE
  }

  // ---- arguments as bytes ------------------------------------------------------------

  function Reversed(s: seq<byte>): (r: seq<byte>)
    ensures |r| == |s|
  {
    seq(|s|, i requires 0 <= i < |s| => s[|s| - 1 - i])
  }

  /** The bytes of an integer in the memory of the machine. */
  function IntBytes(i: int32): (d: seq<byte>)
    ensures |d| == 4
  {
    ToLe32(if i < 0 then i + 0x1_0000_0000 else i)
  }

  function BytesInt(d: seq<byte>): int32
    requires |d| == 4
  {
    var u: int := Le32(d);
    if u < 0x8000_0000 then u else u - 0x1_0000_0000
  }

  /** An argument as it is sent. */
  function Coded(a: Arg): seq<byte> {
    match a
    case Int(i) => Reversed(IntBytes(i))
    case Bool(b) => [if b then 1 else 0]
    case Float(bits) => Reversed(ToLe32(bits))
    case Str(s) => s + [0]
  }

  function AllCoded(args: seq<Arg>): seq<byte> {
    if args == [] then [] else AllCoded(args[..|args| - 1]) + Coded(args[|args| - 1])
  }

  /** The characters before the first NUL, if there is one. */
  function Terminated(d: seq<byte>): (s: Option<Chars>)
    ensures s.Some? ==> |s.value| < |d| && d[|s.value|] == 0 && d[..|s.value|] == s.value
  {
    if d == [] then None
    else if d[0] == 0 then Some([])
    else
      var more := Terminated(d[1..]);
      if more.Some? then Some([d[0]] + more.value) else None
  }

  /** Reads an argument of the given type from the start of `d`; how much of `d` it
      takes. A float is never read while it is all there. */
  function Taken(t: byte, d: seq<byte>): Option<(Arg, nat)> {
    if t == INT_TYPE && |d| >= 4 then Some((Int(BytesInt(Reversed(d[..4]))), 4))
    else if t == BOOL_TYPE && |d| >= 1 then Some((Bool(d[0] != 0), 1))
    else if t == STRING_TYPE && Terminated(d).Some? then Some((Str(Terminated(d).value), |Terminated(d).value| + 1))
    else None
  }

  lemma {:induction false} TerminatedIs(s: Chars, rest: seq<byte>)
    ensures Terminated(s + [0] + rest) == Some(s)
  {
    if s != [] {
      var more: seq<byte> := s[1..];
      assert (s + [0] + rest)[1..] == more + [0] + rest;
      TerminatedIs(more, rest);
      assert [s[0]] + more == s;
    }
  }

  lemma ReversedTwice(s: seq<byte>)
    ensures Reversed(Reversed(s)) == s
  {
  }

  /** Reading an argument undoes coding it, except for floats. */
  lemma TakenCoded(a: Arg, rest: seq<byte>)
    ensures Taken(TypeOf(a), Coded(a) + rest) == if a.Float? then None else Some((a, |Coded(a)|))
  {
    var d := Coded(a) + rest;
    match a
    case Int(i) =>
      assert d[..4] == Reversed(IntBytes(i));
      ReversedTwice(IntBytes(i));
    case Bool(b) =>
    case Float(_) =>
    case Str(s) =>
      TerminatedIs(s, rest);
  }

  /** On the wire a number has its high byte first, a boolean is 1 or 0, and a
      string ends with a NUL. */
  lemma WireForms(i: int32, b: bool, bits: u32, s: Chars)
    ensures |Coded(Int(i))| == 4 && HighFirst(Coded(Int(i))) == if i < 0 then 0x1_0000_0000 + i else i
    ensures |Coded(Float(bits))| == 4 && HighFirst(Coded(Float(bits))) == bits
    ensures Coded(Bool(false)) == [0] && Coded(Bool(true)) == [1] && Coded(Str(s)) == s + [0]
  {
    WireWord(if i < 0 then i + 0x1_0000_0000 else i);
    WireWord(bits);
  }

  /** A word with its high byte first. */
  function HighFirst(d: seq<byte>): nat
    requires |d| == 4
  {
    var d0: int, d1: int, d2: int, d3: int := d[0], d[1], d[2], d[3];
    0x100_0000 * d0 + 0x1_0000 * d1 + 0x100 * d2 + d3
  }

  lemma WireWord(x: u32)
    ensures HighFirst(Reversed(ToLe32(x))) == x
  {
    var d := ToLe32(x);
    assert Reversed(d) == [d[3], d[2], d[1], d[0]];
  }

  // ---- types as nibbles ----------------------------------------------------------------

  /** Bitwise disjunction. */
  function Or(x: byte, y: byte): int {
    var a: int, b: int := x, y;
    a + b - And(x, y)
  }

  /** The eight types in the four bytes after the version. */
  function Types(header: seq<byte>): (t: seq<byte>)
    requires |header| >= 5
    ensures |t| == 8
  {
    seq(8, k requires 0 <= k < 8 => if k % 2 == 0 then header[1 + k / 2] / 16 else header[1 + k / 2] % 16)
  }

  /** The types of the arguments, in order, and nothing after them. */
  function TypesOf(args: seq<Arg>): seq<byte>
    requires |args| <= 8
  {
    seq(8, k requires 0 <= k < 8 => if k < |args| then TypeOf(args[k]) else NO_TYPE)
  }

  /** Two types to a byte, the first in the high half: 1 for a boolean, 2 for an
      integer, 3 for a float, 4 for a string, and 0 where there is no argument. */
  lemma WireTypes(header: seq<byte>, args: seq<Arg>, k: nat)
    requires |header| >= 5 && |args| <= 8 && Types(header) == TypesOf(args) && k < 8
    ensures var code := if k >= |args| then 0 else match args[k] case Bool(_) => 1 case Int(_) => 2 case Float(_) => 3 case Str(_) => 4;
            code == if k % 2 == 0 then header[1 + k / 2] / 16 else header[1 + k / 2] % 16
  {
    assert Types(header)[k] == TypesOf(args)[k];
  }

  lemma {:induction false} OrBound(n: nat, x: nat, y: nat)
    requires x < Pow2(n) && y < Pow2(n)
    ensures x + y - And(x, y) < Pow2(n)
  {
    hide And;
    if n > 0 {
      AndHalves(x, y);
      OrBound(n - 1, x / 2, y / 2);
    } else {
      AndZero(0);
    }
  }

  function Both(b: nat, c: nat): nat {
    if b == 1 && c == 1 then 1 else 0
  }

  /** A conjunction, one bit at a time. */
  lemma AndBit(h: nat, b: nat, s: nat, c: nat)
    requires b < 2 && c < 2
    ensures And(2 * h + b, 2 * s + c) == Both(b, c) + 2 * And(h, s)
  {
    assert (2 * h + b) / 2 == h && (2 * h + b) % 2 == b && (2 * s + c) / 2 == s && (2 * s + c) % 2 == c;
  }

  lemma AndZero(x: nat)
    ensures And(x, 0) == 0
  {
  }

  lemma AndHigh(h: nat, b3: nat, b2: nat, b1: nat, b0: nat, t: nat)
    requires b3 < 2 && b2 < 2 && b1 < 2 && b0 < 2
    ensures And(16 * h + 8 * b3 + 4 * b2 + 2 * b1 + b0, 16 * t) == 16 * And(h, t)
  {
    hide And;
    AndBit(h, b3, t, 0);
    AndBit(2 * h + b3, b2, 2 * t, 0);
    AndBit(2 * (2 * h + b3) + b2, b1, 4 * t, 0);
    AndBit(2 * (2 * (2 * h + b3) + b2) + b1, b0, 8 * t, 0);
  }

  lemma AndLow(h: nat, b3: nat, b2: nat, b1: nat, b0: nat, c3: nat, c2: nat, c1: nat, c0: nat)
    requires b3 < 2 && b2 < 2 && b1 < 2 && b0 < 2 && c3 < 2 && c2 < 2 && c1 < 2 && c0 < 2
    ensures And(16 * h + 8 * b3 + 4 * b2 + 2 * b1 + b0, 8 * c3 + 4 * c2 + 2 * c1 + c0)
         == 8 * Both(b3, c3) + 4 * Both(b2, c2) + 2 * Both(b1, c1) + Both(b0, c0)
  {
    hide And, Both;
    AndZero(h);
    AndBit(h, b3, 0, c3);
    AndBit(2 * h + b3, b2, c3, c2);
    AndBit(2 * (2 * h + b3) + b2, b1, 2 * c3 + c2, c1);
    AndBit(2 * (2 * (2 * h + b3) + b2) + b1, b0, 2 * (2 * c3 + c2) + c1, c0);
  }

  /** The four bits of a half byte. */
  lemma NibbleBits(x: nat) returns (b3: nat, b2: nat, b1: nat, b0: nat)
    requires x < 16
    ensures b3 < 2 && b2 < 2 && b1 < 2 && b0 < 2 && x == 8 * b3 + 4 * b2 + 2 * b1 + b0
  {
    b3, b2, b1, b0 := x / 8, x / 4 % 2, x / 2 % 2, x % 2;
  }

  /** Setting bits in one half of a byte. */
  lemma OrNibble(x: byte, t: byte)
    requires t < 16
    ensures 0 <= Or(x / 16, t) < 16 && 0 <= Or(x % 16, t) < 16
    ensures 0 <= Or(x, t * 16) == Or(x / 16, t) * 16 + x % 16 < 0x100
    ensures 0 <= Or(x, t) == x / 16 * 16 + Or(x % 16, t) < 0x100
  {
    hide And;
    assert Pow2(4) == 16 by {
      assert Pow2(2) == 4;
    }
    OrBound(4, x / 16, t);
    OrBound(4, x % 16, t);
    var b3, b2, b1, b0 := NibbleBits(x % 16);
    var c3, c2, c1, c0 := NibbleBits(t);
    AndHigh(x / 16, b3, b2, b1, b0, t);
    AndLow(x / 16, b3, b2, b1, b0, c3, c2, c1, c0);
    AndLow(0, b3, b2, b1, b0, c3, c2, c1, c0);
  }

  /** A type lands in the half byte of its position and nowhere else. */
  lemma TypeLands(header: seq<byte>, position: nat, t: byte)
    requires |header| >= 5 && 1 <= position <= 8 && t < 16
    ensures var pos, was := 1 + (position - 1) / 2, Types(header)[position - 1];
            var x := Or(header[pos], if position % 2 == 1 then t * 16 else t);
            && was < 16 && 0 <= Or(was, t) < 16 && 0 <= x < 0x100
            && Types(header[pos := x]) == Types(header)[position - 1 := Or(was, t)]
  {
    hide Or;
    var pos := 1 + (position - 1) / 2;
    var x := header[pos];
    OrNibble(x, t);
    Halves(Or(x / 16, t), x % 16);
    Halves(x / 16, Or(x % 16, t));
    forall k | 0 <= k < 8 && 1 + k / 2 == pos && k != position - 1
      ensures k % 2 != (position - 1) % 2
    {
    }
  }

  lemma Halves(high: nat, low: nat)
    requires low < 16
    ensures (high * 16 + low) / 16 == high && (high * 16 + low) % 16 == low
  {
  }

  // ---- writing -----------------------------------------------------------------------------

  /** What a message says so far. */
  datatype Message = Message(types: seq<byte>, payload: seq<byte>)

  /** The message with one more argument; a type lands on what was there. */
  function With(m: Message, a: Arg, position: nat): Message
    requires 1 <= position <= 8 && |m.types| == 8 && m.types[position - 1] < 16
  {
    OrNibble(m.types[position - 1], TypeOf(a));
    Message(m.types[position - 1 := Or(m.types[position - 1], TypeOf(a))], m.payload + Coded(a))
  }

  class Serializer {
    const value: array<byte>
    var size: nat
    var invalid: bool

    ghost predicate Valid()
      reads this, value
    {
      value.Length == MAX_PAYLOAD && 5 <= size <= MAX_PAYLOAD && value[0] == VERSION_1
    }

    ghost function Sent(): (m: Message)
      requires Valid()
      reads this, value
      ensures |m.types| == 8 && forall k | 0 <= k < 8 :: m.types[k] < 16
    {
      Message(Types(value[..]), value[5..size])
    }

    /** Takes over the one buffer there is, whatever is in it. */
    constructor Init(buffer: array<byte>)
      requires buffer.Length == MAX_PAYLOAD
      modifies buffer
      ensures Valid() && value == buffer && !invalid && Sent() == Message(TypesOf([]), [])
    {
      value := buffer;
      buffer[0], buffer[1], buffer[2], buffer[3], buffer[4] := VERSION_1, NO_TYPE, NO_TYPE, NO_TYPE, NO_TYPE;
      size := 5;
      invalid := false;
    }

    /** `_writeType`: sets bits in the half byte of the position. */
    method WriteType(position: nat, t: byte)
      requires Valid() && 1 <= position <= 8 && t < 16
      modifies value
      ensures Valid() && Sent().payload == old(Sent().payload) && old(Sent()).types[position - 1] < 16
      ensures 0 <= Or(old(Sent()).types[position - 1], t) < 16
      ensures Sent().types == old(Sent()).types[position - 1 := Or(old(Sent()).types[position - 1], t)]
    {
      hide Or;
      var pos := 1 + (position - 1) / 2;
      TypeLands(value[..], position, t);
      if position % 2 == 1 {
        value[pos] := Or(value[pos], t * 16);
      } else {
        value[pos] := Or(value[pos], t);
      }
    }
  
    /** What adding an argument comes to: it fails exactly if there is no room,
        and then changes nothing but the mark. */
    ghost predicate Adding(was: Message, n: nat, bad: bool, a: Arg, position: nat, failed: bool)
      requires Valid() && 1 <= position <= 8 && |was.types| == 8 && was.types[position - 1] < 16
      reads this, value
    {
      && failed == (n + |Coded(a)| > MAX_PAYLOAD)
      && (failed ==> invalid && size == n && Sent() == was)
      && (!failed ==> invalid == bad && size == n + |Coded(a)| && Sent() == With(was, a, position))
    }

    /** Copies `n` bytes in reverse order to the end of the message. */
    method ReverseCopy(src: array<byte>, n: nat)
      requires Valid() && src != value && n <= src.Length && size + n <= MAX_PAYLOAD
      modifies value
      ensures Valid() && value[..size] == old(value[..size]) && value[size..size + n] == Reversed(src[..n])
    {
      for i := 0 to n
        invariant Valid() && forall j | 0 <= j < size :: value[j] == old(value[j])
        invariant forall j | size + n - i <= j < size + n :: value[j] == src[size + n - 1 - j]
      {
        value[size + n - 1 - i] := src[i];
      }
    }

    /** `strcpy` to the end of the message. */
    method StringCopy(s: Chars)
      requires Valid() && size + |s| < MAX_PAYLOAD
      modifies value
      ensures Valid() && value[..size] == old(value[..size]) && value[size..size + |s| + 1] == s + [0]
    {
      for i := 0 to |s|
        invariant Valid() && forall j | 0 <= j < size :: value[j] == old(value[j])
        invariant forall j | size <= j < size + i :: value[j] == s[j - size]
      {
        value[size + i] := s[i];
      }
      value[size + |s|] := 0;
    }

    /** Adds a number of `n` bytes, which are in the order of the machine. */
    method AddNumber(src: array<byte>, n: nat, ghost a: Arg, position: nat, t: byte) returns (failed: bool)
      requires Valid() && 1 <= position <= 8 && src != value && n <= src.Length
      requires t == TypeOf(a) && Coded(a) == Reversed(src[..n])
      modifies this, value
      ensures Valid() && Adding(old(Sent()), old(size), old(invalid), a, position, failed)
    {
      if size + n > MAX_PAYLOAD {
        invalid := true;
        return true;
      }
      WriteType(position, t);
      ghost var was := value[..];
      ReverseCopy(src, n);
      Extended(was, value[..], size, n);
      size := size + n;
      return false;
    }

    /** `addByzanceInt`; says whether it failed. */
    method AddInt(i: int32, position: nat) returns (failed: bool)
      requires Valid() && 1 <= position <= 8
      modifies this, value
      ensures Valid() && Adding(old(Sent()), old(size), old(invalid), Int(i), position, failed)
    {
      var d := IntBytes(i);
      var src := new byte[4](k requires 0 <= k < 4 => d[k]);
      assert src[..4] == d;
      failed := AddNumber(src, 4, Int(i), position, INT_TYPE);
    }

    method AddBool(b: bool, position: nat) returns (failed: bool)
      requires Valid() && 1 <= position <= 8
      modifies this, value
      ensures Valid() && Adding(old(Sent()), old(size), old(invalid), Bool(b), position, failed)
    {
      var src := new byte[1](_ => if b then 1 else 0);
      assert src[..1] == [if b then 1 else 0] == Reversed([if b then 1 else 0]);
      failed := AddNumber(src, 1, Bool(b), position, BOOL_TYPE);
    }

    method AddFloat(bits: u32, position: nat) returns (failed: bool)
      requires Valid() && 1 <= position <= 8
      modifies this, value
      ensures Valid() && Adding(old(Sent()), old(size), old(invalid), Float(bits), position, failed)
    {
      var d := ToLe32(bits);
      var src := new byte[4](k requires 0 <= k < 4 => d[k]);
      assert src[..4] == d;
      failed := AddNumber(src, 4, Float(bits), position, FLOAT_TYPE);
    }

    method AddString(s: Chars, position: nat) returns (failed: bool)
      requires Valid() && 1 <= position <= 8
      modifies this, value
      ensures Valid() && Adding(old(Sent()), old(size), old(invalid), Str(s), position, failed)
    {
      var valueLen := |s| + 1;
      if size + valueLen > MAX_PAYLOAD {
        invalid := true;
        return true;
      }
      WriteType(position, STRING_TYPE);
      ghost var was := value[..];
      StringCopy(s);
      Extended(was, value[..], size, valueLen);
      size := size + valueLen;
      return false;
    }
  }

  /** Bytes at the end do not change what was there before. */
  lemma Extended(v: seq<byte>, w: seq<byte>, size: nat, n: nat)
    requires 5 <= size && size + n <= |v| == |w| && v[..size] == w[..size]
    ensures Types(v) == Types(w) && w[5..size + n] == v[5..size] + w[size..size + n]
  {
    assert forall i | 0 <= i < size :: v[i] == v[..size][i] == w[..size][i] == w[i];
  }

  lemma SameTypes(v: seq<byte>, w: seq<byte>)
    requires 5 <= |w| <= |v| && v[..|w|] == w
    ensures Types(w) == [v[1] / 16, v[1] % 16, v[2] / 16, v[2] % 16, v[3] / 16, v[3] % 16, v[4] / 16, v[4] % 16]
  {
    assert v[1] == w[1] && v[2] == w[2] && v[3] == w[3] && v[4] == w[4];
  }

  // ---- reading ---------------------------------------------------------------------------

  class Parser {
    const value: array<byte>
    var valueLen: nat
    var pointer: nat
    var invalid: bool
    var argTypes: seq<byte>
    ghost var loaded: bool // was there a message to read?

    ghost predicate Valid()
      reads this, value
    {
      && value.Length == MAX_PAYLOAD && (loaded || invalid) && |argTypes| == 8
      && (loaded ==> 5 <= pointer <= valueLen <= MAX_PAYLOAD)
    }

    /** What is still to be read. */
    ghost function Rest(): seq<byte>
      requires Valid() && loaded
      reads this, value
    {
      value[pointer..valueLen]
    }

    /** Takes over a message. `memory` is what is where the types are to be. */
    constructor Init(buffer: array<byte>, data: array<byte>, len: nat, memory: seq<byte>)
      requires buffer.Length == MAX_PAYLOAD && buffer != data && len <= data.Length && |memory| == 8
      modifies buffer
      ensures Valid() && value == buffer
      ensures invalid <==> len < 5 || len > MAX_PAYLOAD || data[0] != VERSION_1
      ensures !invalid ==> loaded && argTypes == Types(data[..len]) && Rest() == data[5..len] && pointer == 5 && valueLen == len
    {
      value := buffer;
      valueLen, pointer, argTypes := 0, 0, memory;
      if len < 5 || len > MAX_PAYLOAD {
        invalid, loaded := true, false;
      } else if data[0] != VERSION_1 {
        invalid, loaded := true, false;
      } else {
        ghost var was := data[..len];
        Memcpy(buffer, 0, data, 0, len);
        assert buffer[..len] == was;
        SameTypes(buffer[..], was);
        valueLen, pointer, invalid, loaded := len, 5, false, true;
        argTypes := [buffer[1] / 16, buffer[1] % 16, buffer[2] / 16, buffer[2] % 16,
                     buffer[3] / 16, buffer[3] % 16, buffer[4] / 16, buffer[4] % 16];
      }
    }

    /** Copies `n` bytes of the message in reverse order. */
    method ReverseCopy(n: nat) returns (d: array<byte>)
      requires Valid() && loaded && pointer + n <= MAX_PAYLOAD
      ensures fresh(d) && d.Length == n && d[..] == Reversed(value[pointer..pointer + n])
    {
      d := new byte[n](_ => 0);
      for i := 0 to n
        invariant forall k | n - i <= k < n :: d[k] == value[pointer + n - 1 - k]
      {
        d[n - 1 - i] := value[pointer + i];
      }
    }

    /** What reading an argument of a type comes to: if it is the next one and is
        all there it is taken, otherwise the parser is invalid from then on. */
    ghost predicate Reading(was: seq<byte>, bad: bool, t: byte, position: nat, got: Option<Arg>)
      requires Valid() && 1 <= position <= 8
      reads this, value
    {
      var taken := Taken(t, was);
      && (got.Some? <==> argTypes[position - 1] == t && taken.Some?)
      && invalid == (bad || got.None?)
      && loaded
      && Rest() == (if got.Some? then was[taken.value.1..] else was)
      && (got.Some? ==> got == Some(taken.value.0))
    }

    /** `getByzanceInt`: 0 if there is none. */
    method GetInt(position: nat) returns (r: int32)
      requires Valid() && 1 <= position <= 8
      modifies this
      ensures Valid() && argTypes == old(argTypes) && loaded == old(loaded) && valueLen == old(valueLen)
      ensures old(invalid) ==> invalid && r == 0
      ensures !old(invalid) ==> Reading(old(Rest()), false, INT_TYPE, position, if invalid then None else Some(Int(r)))
      ensures invalid ==> r == 0
    {
      if invalid {
        return 0;
      }
      if argTypes[position - 1] != INT_TYPE {
        invalid := true;
        return 0;
      }
      if pointer + 4 > valueLen {
        invalid := true;
        return 0;
      }
      assert value[pointer..pointer + 4] == Rest()[..4];
      var d := ReverseCopy(4);
      pointer := pointer + 4;
      return BytesInt(d[..]);
    }

    /** `getByzanceBool`: goes on reading even if the parser is invalid already. */
    method GetBool(position: nat) returns (r: bool)
      requires Valid() && loaded && 1 <= position <= 8
      modifies this
      ensures Valid() && argTypes == old(argTypes) && loaded && valueLen == old(valueLen)
      ensures exists got :: Reading(old(Rest()), old(invalid), BOOL_TYPE, position, got) && (r <==> got == Some(Bool(true)))
    {
      ghost var was, bad := Rest(), invalid;
      if argTypes[position - 1] != BOOL_TYPE {
        invalid := true;
        assert Reading(was, bad, BOOL_TYPE, position, None);
        return false;
      }
      if pointer + 1 > valueLen {
        invalid := true;
        assert Reading(was, bad, BOOL_TYPE, position, None);
        return false;
      }
      var d := ReverseCopy(1);
      assert d[..][0] == was[0];
      pointer := pointer + 1;
      r := d[0] != 0;
      assert Reading(was, bad, BOOL_TYPE, position, Some(Bool(r)));
    }

    /** `getByzanceString`: a copy, or nothing. */
    method GetString(position: nat) returns (r: Option<Chars>)
      requires Valid() && 1 <= position <= 8
      modifies this
      ensures Valid() && argTypes == old(argTypes) && loaded == old(loaded) && valueLen == old(valueLen)
      ensures old(invalid) ==> invalid && r == None
      ensures !old(invalid) ==> Reading(old(Rest()), false, STRING_TYPE, position, if r.Some? then Some(Str(r.value)) else None)
      ensures invalid <==> r == None
    {
      hide Terminated;
      if invalid {
        return None;
      }
      if argTypes[position - 1] != STRING_TYPE {
        invalid := true;
        return None;
      }
      var n := 0;
      while pointer + n < MAX_PAYLOAD && value[pointer + n] != 0
        invariant pointer + n <= MAX_PAYLOAD && forall j | pointer <= j < pointer + n :: value[j] != 0
      {
        n := n + 1;
      }
      var strLen := n + 1;
      ghost var rest := Rest();
      assert forall k | 0 <= k < n && k < |rest| :: rest[k] == value[pointer + k];
      TerminatedAt(rest, n);
      if pointer + strLen > valueLen {
        invalid := true;
        return None;
      }
      assert value[pointer..pointer + n] == Rest()[..n];
      r := Some(value[pointer..pointer + n]);
      pointer := pointer + strLen;
    }

    /** `getByzanceFloat`: its check of the length is the wrong way round, so a
        float that is all there is refused, and beyond the end of the message
        whatever the buffer holds is taken for one. */
    method GetFloat(position: nat) returns (bits: u32)
      requires Valid() && 1 <= position <= 8 && (!invalid ==> pointer + 4 <= MAX_PAYLOAD)
      modifies this
      ensures value.Length == MAX_PAYLOAD && argTypes == old(argTypes) && valueLen == old(valueLen) && loaded == old(loaded)
      ensures invalid <==> old(invalid) || argTypes[position - 1] != FLOAT_TYPE || old(pointer) + 4 <= valueLen
      ensures invalid ==> Valid() && bits == 0 && (loaded ==> Rest() == old(if loaded then Rest() else []))
      ensures !invalid ==> bits == Le32(Reversed(value[old(pointer)..old(pointer) + 4]))
      ensures pointer == if invalid then old(pointer) else old(pointer) + 4
    {
      if invalid {
        return 0;
      }
      if argTypes[position - 1] != FLOAT_TYPE {
        invalid := true;
        return 0;
      }
      if pointer + 4 <= valueLen {
        invalid := true;
        return 0;
      }
      var d := ReverseCopy(4);
      pointer := pointer + 4;
      return Le32(d[..]);
    }
  }

  /** A float that was sent is not received, whatever follows it. */
  method FloatRefused(p: Parser, bits: u32, rest: seq<byte>, position: nat) returns (got: u32)
    requires p.Valid() && !p.invalid && 1 <= position <= 8 && p.argTypes[position - 1] == FLOAT_TYPE
    requires p.Rest() == Coded(Float(bits)) + rest
    modifies p
    ensures p.Valid() && p.loaded && p.invalid && got == 0 && p.Rest() == old(p.Rest())
  {
    assert |p.Rest()| == p.valueLen - p.pointer;
    got := p.GetFloat(position);
  }

  /** Where a string ends, given a place with no NUL before it. */
  lemma {:induction false} TerminatedAt(d: seq<byte>, n: nat)
    requires forall k | 0 <= k < n && k < |d| :: d[k] != 0
    requires n < |d| ==> d[n] == 0
    ensures Terminated(d) == if n < |d| then Some(d[..n]) else None
  {
    if d != [] && n > 0 {
      assert forall k | 0 <= k < n - 1 && k < |d| - 1 :: d[1..][k] == d[k + 1];
      TerminatedAt(d[1..], n - 1);
    }
  }

  // ---- from one end to the other ---------------------------------------------------------

  /** The message of some arguments, at positions 1, 2, and so on. */
  function MessageOf(args: seq<Arg>): Message
    requires |args| <= 8
  {
    Message(TypesOf(args), AllCoded(args))
  }

  lemma WithNext(args: seq<Arg>, a: Arg)
    requires |args| < 8
    ensures TypesOf(args)[|args|] < 16 && With(MessageOf(args), a, |args| + 1) == MessageOf(args + [a])
    ensures |AllCoded(args + [a])| == |AllCoded(args)| + |Coded(a)|
  {
    hide Coded;
    assert (args + [a])[..|args|] == args;
    assert Or(NO_TYPE, TypeOf(a)) == TypeOf(a);
    OrNibble(NO_TYPE, TypeOf(a));
    assert TypesOf(args)[|args| := TypeOf(a)] == TypesOf(args + [a]);
  }

  lemma {:induction false} CodedFirst(args: seq<Arg>)
    requires args != []
    ensures AllCoded(args) == Coded(args[0]) + AllCoded(args[1..])
  {
    hide Coded, AllCoded;
    var n := |args| - 1;
    CodedLast(args);
    NothingCoded();
    if n > 0 {
      CodedFirst(args[..n]);
      CodedLast(args[1..]);
      Middle(args);
    }
  }

  lemma CodedLast(args: seq<Arg>)
    requires args != []
    ensures AllCoded(args) == AllCoded(args[..|args| - 1]) + Coded(args[|args| - 1])
    ensures |args| == 1 ==> args[..|args| - 1] == [] && args[1..] == []
  {
    hide Coded;
  }

  /** Cutting off both ends, in either order. */
  lemma Middle(args: seq<Arg>)
    requires |args| > 1
    ensures args[..|args| - 1][0] == args[0] && args[1..][|args| - 2] == args[|args| - 1]
    ensures args[..|args| - 1][1..] == args[1..][..|args| - 2]
  {
  }

  lemma {:induction false} CodedPrefix(args: seq<Arg>, k: nat)
    requires k <= |args|
    ensures |AllCoded(args[..k])| <= |AllCoded(args)|
  {
    hide Coded;
    if k < |args| {
      var front := args[..|args| - 1];
      CodedPrefix(front, k);
      assert front[..k] == args[..k];
    } else {
      assert args[..k] == args;
    }
  }

  /** Adds an argument of whatever kind. */
  method Add(s: Serializer, a: Arg, position: nat) returns (failed: bool)
    requires s.Valid() && 1 <= position <= 8
    modifies s, s.value
    ensures s.Valid() && s.Adding(old(s.Sent()), old(s.size), old(s.invalid), a, position, failed)
  {
    match a
    case Int(i) => failed := s.AddInt(i, position);
    case Bool(b) => failed := s.AddBool(b, position);
    case Float(bits) => failed := s.AddFloat(bits, position);
    case Str(t) => failed := s.AddString(t, position);
  }

  /** Gets an argument of the same kind as `like`. */
  method Get(p: Parser, like: Arg, position: nat) returns (got: Option<Arg>)
    requires p.Valid() && p.loaded && !p.invalid && 1 <= position <= 8 && !like.Float?
    modifies p
    ensures p.Valid() && p.argTypes == old(p.argTypes) && p.valueLen == old(p.valueLen)
    ensures p.Reading(old(p.Rest()), false, TypeOf(like), position, got)
  {
    match like
    case Int(_) =>
      var r := p.GetInt(position);
      got := if p.invalid then None else Some(Int(r));
    case Bool(_) =>
      var r := p.GetBool(position);
      got := if p.invalid then None else Some(Bool(r));
    case Str(_) =>
      var r := p.GetString(position);
      got := if r.Some? then Some(Str(r.value)) else None;
  }

  /** Adds the arguments at positions 1, 2, and so on. */
  method Compose(s: Serializer, args: seq<Arg>)
    requires s.Valid() && !s.invalid && s.Sent() == MessageOf([]) && |args| <= 8 && 5 + |AllCoded(args)| <= MAX_PAYLOAD
    modifies s, s.value
    ensures s.Valid() && !s.invalid && s.Sent() == MessageOf(args) && s.size == 5 + |AllCoded(args)|
  {
    hide Coded, TypesOf, With, AllCoded;
    assert args[..0] == [];
    for i := 0 to |args|
      invariant s.Valid() && !s.invalid && s.Sent() == MessageOf(args[..i])
    {
      assert args[..i + 1] == args[..i] + [args[i]];
      WithNext(args[..i], args[i]);
      CodedPrefix(args, i + 1);
      var failed := Add(s, args[i], i + 1);
    }
    assert args[..|args|] == args;
  }

  /** Gets arguments of the given kinds one after another. */
  method Interpret(parser: Parser, args: seq<Arg>) returns (got: seq<Arg>)
    requires |args| <= 8 && forall i | 0 <= i < |args| :: !args[i].Float?
    requires parser.Valid() && !parser.invalid && parser.argTypes == TypesOf(args) && parser.Rest() == AllCoded(args)
    modifies parser
    ensures got == args && parser.Valid() && !parser.invalid && parser.pointer == parser.valueLen == old(parser.valueLen)
  {
    hide Coded, TypesOf, AllCoded, Taken;
    got := [];
    assert args[0..] == args;
    for i := 0 to |args|
      invariant parser.Valid() && parser.loaded && !parser.invalid && got == args[..i]
      invariant parser.argTypes == TypesOf(args) && parser.Rest() == AllCoded(args[i..]) && parser.valueLen == old(parser.valueLen)
    {
      NextTaken(args, i);
      assert args[..i + 1] == args[..i] + [args[i]];
      var a := Get(parser, args[i], i + 1);
      assert a == Some(args[i]) && parser.Rest() == AllCoded(args[i + 1..]);
      got := got + [a.value];
    }
    assert args[|args|..] == [];
    NothingCoded();
  }

  /** The next argument is there to be taken, and leaves the others. */
  lemma NextTaken(args: seq<Arg>, i: nat)
    requires i < |args| <= 8 && !args[i].Float?
    ensures TypesOf(args)[i] == TypeOf(args[i])
    ensures var d, n := AllCoded(args[i..]), |Coded(args[i])|;
            n <= |d| && Taken(TypeOf(args[i]), d) == Some((args[i], n)) && d[n..] == AllCoded(args[i + 1..])
  {
    hide Coded, AllCoded, Taken;
    assert args[i..][0] == args[i] && args[i..][1..] == args[i + 1..];
    CodedFirst(args[i..]);
    TakenCoded(args[i], AllCoded(args[i + 1..]));
  }

  lemma NothingCoded()
    ensures AllCoded([]) == []
  {
  }

  /** Arguments that are added in order and fit are all read as they were, and
      the parser ends, still valid, at the end of the message. */
  method Exchange(s: Serializer, p: array<byte>, args: seq<Arg>, memory: seq<byte>) returns (parser: Parser, got: seq<Arg>)
    requires s.Valid() && !s.invalid && s.Sent() == MessageOf([]) && p.Length == MAX_PAYLOAD && p != s.value && |memory| == 8
    requires |args| <= 8 && 5 + |AllCoded(args)| <= MAX_PAYLOAD && forall i | 0 <= i < |args| :: !args[i].Float?
    modifies s, s.value, p
    ensures got == args && parser.Valid() && !parser.invalid && !s.invalid
    ensures parser.pointer == parser.valueLen == s.size == 5 + |AllCoded(args)|
  {
    hide TypesOf, AllCoded, Types;
    Compose(s, args);
    ghost var sent := s.value[..];
    parser := new Parser.Init(p, s.value, s.size, memory);
    SameHeader(sent, s.size);
    got := Interpret(parser, args);
  }

  lemma SameHeader(v: seq<byte>, n: nat)
    requires 5 <= n <= |v|
    ensures Types(v[..n]) == Types(v)
  {
  }
}
