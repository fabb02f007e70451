/** The NOR flash chip: erasing sets a whole subsector to ones, programming
    only clears bits, and a power cut may fall between any two elementary
    operations. */
module NorFlash {
  import opened Bytes

  const SIZE := 0x80_0000
  const SUBSECTOR := 0x1000
  const PAGE := 0x100
  const PAGES := 16 // in a subsector

  type Image = s: seq<byte> | |s| == SIZE witness Blank(SIZE)

  type Address = x: int | 0 <= x < SIZE

  /** Where a subsector starts. */
  type Start = x: int | 0 <= x < SIZE && x % SUBSECTOR == 0

  function SubsectorBegin(address: nat): (b: nat)
    ensures b % SUBSECTOR == 0 && b <= address < b + SUBSECTOR
  {
    address / SUBSECTOR * SUBSECTOR
  }

  /** The operations a power cut cannot split. */
  datatype Op = Erase(begin: Start) | Program(at: Address, value: byte)

  function Apply(f: Image, op: Op): Image {
    match op
    case Erase(begin) => Splice(f, begin, Blank(SUBSECTOR))
    case Program(at, value) => f[at := And(f[at], value)]
  }

  function Run(f: Image, ops: seq<Op>): Image
    decreases |ops|
  {
    if ops == [] then f else Run(Apply(f, ops[0]), ops[1..])
  }

  /** Power fails after `k` operations. */
  function RunTo(f: Image, ops: seq<Op>, k: nat): Image
    requires k <= |ops|
  {
    Run(f, ops[..k])
  }

  lemma RunEnds(f: Image, ops: seq<Op>)
    ensures RunTo(f, ops, 0) == f && RunTo(f, ops, |ops|) == Run(f, ops)
  {
    assert ops[..|ops|] == ops;
  }

  lemma RunOne(f: Image, op: Op)
    ensures Run(f, [op]) == Apply(f, op)
  {
  }

  lemma {:induction false} RunConcat(f: Image, a: seq<Op>, b: seq<Op>)
    ensures Run(f, a + b) == Run(Run(f, a), b)
    decreases |a|
  {
    if a == [] {
      assert a + b == b;
    } else {
      assert (a + b)[1..] == a[1..] + b;
      RunConcat(Apply(f, a[0]), a[1..], b);
    }
  }

  lemma RunCut(f: Image, a: seq<Op>, b: seq<Op>, k: nat)
    requires k <= |a + b|
    ensures k <= |a| ==> RunTo(f, a + b, k) == RunTo(f, a, k)
    ensures k >= |a| ==> RunTo(f, a + b, k) == RunTo(Run(f, a), b, k - |a|)
  {
    if k <= |a| {
      assert (a + b)[..k] == a[..k];
    }
    if k >= |a| {
      assert (a + b)[..k] == a + b[..k - |a|];
      RunConcat(f, a, b[..k - |a|]);
    }
  }

  predicate SameOutside(f: Image, g: Image, lo: nat, hi: nat) {
    forall i | 0 <= i < SIZE && !(lo <= i < hi) :: f[i] == g[i]
  }

  /** Does the operation change nothing outside `[lo, hi)`? */
  predicate Touches(op: Op, lo: nat, hi: nat) {
    match op
    case Erase(begin) => lo <= begin && begin + SUBSECTOR <= hi
    case Program(at, _) => lo <= at < hi
  }

  predicate TouchesOnly(ops: seq<Op>, lo: nat, hi: nat) {
    forall i | 0 <= i < |ops| :: Touches(ops[i], lo, hi)
  }

  lemma TouchesNothing(lo: nat, hi: nat)
    ensures TouchesOnly([], lo, hi)
  {
  }

  lemma TouchesBoth(a: seq<Op>, lo: nat, mid: nat, b: seq<Op>, start: nat, hi: nat)
    requires TouchesOnly(a, lo, mid) && TouchesOnly(b, start, hi) && mid <= hi && lo <= start
    ensures TouchesOnly(a + b, lo, hi)
  {
  }

  /** Wherever power fails, only the touched range has changed. */
  lemma {:induction false} RunWithin(f: Image, ops: seq<Op>, lo: nat, hi: nat, k: nat)
    requires TouchesOnly(ops, lo, hi) && k <= |ops|
    ensures SameOutside(f, RunTo(f, ops, k), lo, hi)
    decreases k
  {
    if k == 0 {
      RunEnds(f, ops);
    } else {
      RunWithin(Apply(f, ops[0]), ops[1..], lo, hi, k - 1);
      assert ops[..k][1..] == ops[1..][..k - 1];
      assert RunTo(f, ops, k) == RunTo(Apply(f, ops[0]), ops[1..], k - 1);
      assert Touches(ops[0], lo, hi);
    }
  }

  /** Programming `d` from address `a` on, in byte order. */
  function ProgramOps(a: nat, d: seq<byte>): (ops: seq<Op>)
    requires a + |d| <= SIZE
    ensures |ops| == |d|
  {
    seq(|d|, i requires 0 <= i < |d| => Program(a + i, d[i]))
  }

  /** What programming leaves: the conjunction with what was there. */
  function Masked(f: Image, a: nat, d: seq<byte>): Image
    requires a + |d| <= SIZE
  {
    seq(SIZE, i requires 0 <= i < SIZE => if a <= i < a + |d| then And(f[i], d[i - a]) else f[i])
  }

  lemma {:induction false} RunProgram(f: Image, a: nat, d: seq<byte>)
    requires a + |d| <= SIZE
    ensures Run(f, ProgramOps(a, d)) == Masked(f, a, d)
    decreases |d|
  {
    hide Masked, Apply, ProgramOps;
    if d == [] {
      MaskedNothing(f, a);
    } else {
      var g := Apply(f, ProgramOps(a, d)[0]);
      FirstProgram(f, a, d);
      RunProgram(g, a + 1, d[1..]);
    }
  }

  lemma MaskedNothing(f: Image, a: nat)
    requires a <= SIZE
    ensures Masked(f, a, []) == f && ProgramOps(a, []) == []
  {
  }

  lemma FirstProgram(f: Image, a: nat, d: seq<byte>)
    requires d != [] && a + |d| <= SIZE
    ensures ProgramOps(a, d)[1..] == ProgramOps(a + 1, d[1..])
    ensures Masked(Apply(f, ProgramOps(a, d)[0]), a + 1, d[1..]) == Masked(f, a, d)
  {
    hide And;
  }

  /** Programming erased cells stores the data. */
  lemma MaskedErased(f: Image, a: nat, d: seq<byte>)
    requires a + |d| <= SIZE && f[a..a + |d|] == Blank(|d|)
    ensures Masked(f, a, d) == Splice(f, a, d)
  {
    forall i | 0 <= i < SIZE
      ensures Masked(f, a, d)[i] == Splice(f, a, d)[i]
    {
      if a <= i < a + |d| {
        assert f[i] == f[a..a + |d|][i - a];
        AndErased(d[i - a]);
      }
    }
  }

  /** The first `k` operations of a program sequence store the first `k` bytes. */
  lemma RunProgramCut(f: Image, a: nat, d: seq<byte>, k: nat)
    requires a + |d| <= SIZE && f[a..a + |d|] == Blank(|d|) && k <= |d|
    ensures RunTo(f, ProgramOps(a, d), k) == Splice(f, a, d[..k])
  {
    assert ProgramOps(a, d)[..k] == ProgramOps(a, d[..k]);
    RunProgram(f, a, d[..k]);
    assert f[a..a + k] == f[a..a + |d|][..k];
    MaskedErased(f, a, d[..k]);
  }

  /** Does a transfer of `length` bytes stay within the page `address` is in? */
  predicate InPage(address: nat, length: nat) {
    length == 0 || address / PAGE == (address + length - 1) / PAGE
  }

  /** A moment in the life of the chip. */
  datatype Chip = Chip(mem: Image, ops: seq<Op>)

  /** From `s` to `t` the chip carried out exactly `delta`. */
  predicate Did(s: Chip, delta: seq<Op>, t: Chip) {
    t.ops == s.ops + delta && t.mem == Run(s.mem, delta)
  }

  /** The work `all`, begun at `s`, has come to `t` with `rest` still to do. */
  predicate Doing(s: Chip, all: seq<Op>, t: Chip, rest: seq<Op>) {
    t.ops + rest == s.ops + all && Run(t.mem, rest) == Run(s.mem, all)
  }

  lemma DidNothing(s: Chip)
    ensures Did(s, [], s)
  {
  }

  lemma DidBoth(s: Chip, a: seq<Op>, t: Chip, b: seq<Op>, u: Chip)
    requires Did(s, a, t) && Did(t, b, u)
    ensures Did(s, a + b, u)
  {
    hide Run;
    RunConcat(s.mem, a, b);
    assert s.ops + a + b == s.ops + (a + b);
  }

  lemma DoingNext(s: Chip, all: seq<Op>, t: Chip, a: seq<Op>, u: Chip, rest: seq<Op>)
    requires Doing(s, all, t, a + rest) && Did(t, a, u)
    ensures Doing(s, all, u, rest)
  {
    hide Run;
    RunConcat(t.mem, a, rest);
    assert t.ops + a + rest == t.ops + (a + rest);
  }

  lemma DoingBounds(s: Chip, all: seq<Op>, t: Chip)
    ensures Doing(s, all, s, all)
    ensures Doing(s, all, t, []) ==> Did(s, all, t)
  {
    assert t.ops + [] == t.ops;
  }

  /** The chip as its driver shows it, with the log of what it has done. */
  class SpiFlash {
    var mem: Image
    var ops: seq<Op>

    ghost function State(): Chip
      reads this
    {
      Chip(mem, ops)
    }

    constructor (image: Image)
      ensures mem == image && ops == []
    {
      mem, ops := image, [];
    }

    method Read(address: nat, buffer: array<byte>, at: nat, length: nat)
      requires address + length <= SIZE && at + length <= buffer.Length && InPage(address, length)
      modifies buffer
      ensures buffer[..] == Splice(old(buffer[..]), at, mem[address..address + length])
    {
      forall i | 0 <= i < length {
        buffer[at + i] := mem[address + i];
      }
    }

    method Write(address: nat, buffer: array<byte>, at: nat, length: nat)
      requires address + length <= SIZE && at + length <= buffer.Length && InPage(address, length)
      modifies this
      ensures mem == Masked(old(mem), address, buffer[at..at + length])
      ensures Did(old(State()), ProgramOps(address, buffer[at..at + length]), State())
    {
      var d := buffer[at..at + length];
      RunProgram(mem, address, d);
      mem, ops := Masked(mem, address, d), ops + ProgramOps(address, d);
    }

    /** Erases the subsector that holds `address`. */
    method EraseSubsector(address: Address)
      modifies this
      ensures Did(old(State()), [Erase(SubsectorBegin(address))], State())
    {
      var op := Erase(SubsectorBegin(address));
      RunOne(mem, op);
      mem, ops := Apply(mem, op), ops + [op];
    }
  }
}
