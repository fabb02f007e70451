/** What the layers above ask of the external memory, act by act, and what that
    does to the chip. */
module Plans {
  import opened Bytes
  import opened NorFlash
  import opened Streams
  import opened Journal
  import opened ExternalMemory
  import opened Binaries

  /** A `secure_write`, a `write_data` with and without erasing, and an erasure of
      whole subsectors. */
  datatype AnyAct =
    | Save(at: nat, d: seq<byte>) | Rewrite(at: nat, d: seq<byte>) | Burn(at: nat, d: seq<byte>)
    | Wipe(start: nat, n: nat)

  /** Does the act stay below the journal, and a saving in what it can hold? */
  predicate Fits(x: AnyAct) {
    match x
    case Save(at, d) => |d| <= SUBSECTOR && at + |d| <= INDEX
    case Rewrite(at, d) => at + |d| <= INDEX
    case Burn(at, d) => at + |d| <= INDEX
    case Wipe(start, n) => (start + n) * SUBSECTOR <= INDEX
  }

  type Act = x: AnyAct | Fits(x) witness Wipe(0, 0)

  /** Everything an act does to the chip. */
  function ActOps(f: Image, x: Act): seq<Op> {
    match x
    case Save(at, d) => SecureWriteOps(f, at, d)
    case Rewrite(at, d) => WriteOps(f, at, d)
    case Burn(at, d) => ProgramOps(at, d)
    case Wipe(start, n) => EraseOps(start, n)
  }

  /** The flash below the journal after an act. */
  function Acted(v: Disk, x: Act): Disk {
    match x
    case Save(at, d) => Splice(v, at, d)
    case Rewrite(at, d) => Splice(v, at, d)
    case Burn(at, d) => Anded(v, at, d)
    case Wipe(start, n) => Splice(v, start * SUBSECTOR, Blank(n * SUBSECTOR))
  }

  function Anded(v: Disk, at: nat, d: seq<byte>): Disk
    requires at + |d| <= INDEX
  {
    seq(INDEX, i requires 0 <= i < INDEX => if at <= i < at + |d| then And(v[i], d[i - at]) else v[i])
  }

  /** Everything a series of acts does to the chip. */
  function PlanOps(f: Image, plan: seq<Act>): seq<Op> {
    if plan == [] then []
    else
      var before := PlanOps(f, plan[..|plan| - 1]);
      before + ActOps(Run(f, before), plan[|plan| - 1])
  }

  /** The flash below the journal after a series of acts. */
  function Played(v: Disk, plan: seq<Act>): Disk {
    if plan == [] then v else Acted(Played(v, plan[..|plan| - 1]), plan[|plan| - 1])
  }

  lemma PlayedNothing(v: Disk)
    ensures Played(v, []) == v
  {
  }

  lemma PlayedOne(v: Disk, x: Act)
    ensures Played(v, [x]) == Acted(v, x)
  {
    hide Acted;
    assert [x][..0] == [];
    assert Played(v, []) == v;
  }

  lemma {:induction false} PlayedConcat(v: Disk, p: seq<Act>, q: seq<Act>)
    ensures Played(v, p + q) == Played(Played(v, p), q)
  {
    hide Acted;
    var n := |q| - 1;
    if q == [] {
      assert p + q == p;
    } else {
      PlayedConcat(v, p, q[..n]);
      assert (p + q)[..|p| + n] == p + q[..n];
    }
  }

  lemma {:induction false} PlanConcat(f: Image, p: seq<Act>, q: seq<Act>)
    ensures PlanOps(f, p + q) == PlanOps(f, p) + PlanOps(Run(f, PlanOps(f, p)), q)
  {
    hide Run, ActOps;
    var n, g := |q| - 1, Run(f, PlanOps(f, p));
    if q == [] {
      assert p + q == p;
    } else {
      PlanConcat(f, p, q[..n]);
      assert (p + q)[..|p| + n] == p + q[..n];
      RunConcat(f, PlanOps(f, p), PlanOps(g, q[..n]));
    }
  }

  // ---- chips that follow a plan -------------------------------------------------

  /** From `s` to `t` the chip did exactly what the plan asks. */
  predicate Planned(s: Chip, plan: seq<Act>, t: Chip) {
    Did(s, PlanOps(s.mem, plan), t)
  }

  lemma PlannedNothing(s: Chip)
    ensures Planned(s, [], s)
  {
    DidNothing(s);
  }

  lemma PlannedOne(s: Chip, x: Act, t: Chip)
    requires Did(s, ActOps(s.mem, x), t)
    ensures Planned(s, [x], t)
  {
    hide Run, ActOps, Did;
    RunEnds(s.mem, []);
    assert [x][..0] == [];
    assert PlanOps(s.mem, []) == [];
    NothingRun(s.mem);
    assert PlanOps(s.mem, [x]) == [] + ActOps(s.mem, x) == ActOps(s.mem, x);
  }

  lemma OnePlanned(s: Chip, x: Act, t: Chip)
    requires Planned(s, [x], t)
    ensures Did(s, ActOps(s.mem, x), t)
  {
    hide Run, ActOps, Did;
    assert [x][..0] == [];
    assert PlanOps(s.mem, []) == [];
    NothingRun(s.mem);
    assert PlanOps(s.mem, [x]) == [] + ActOps(s.mem, x) == ActOps(s.mem, x);
  }

  lemma NothingPlanned(s: Chip, t: Chip)
    requires Planned(s, [], t)
    ensures s == t
  {
    hide Run;
    NothingRun(s.mem);
    assert s.ops + [] == s.ops;
  }

  lemma NothingRun(f: Image)
    ensures Run(f, []) == f
  {
  }

  lemma PlannedBoth(s: Chip, p: seq<Act>, t: Chip, q: seq<Act>, u: Chip)
    requires Planned(s, p, t) && Planned(t, q, u)
    ensures Planned(s, p + q, u)
  {
    hide Run, PlanOps, Did;
    DidIs(s, PlanOps(s.mem, p), t);
    PlanConcat(s.mem, p, q);
    DidBoth(s, PlanOps(s.mem, p), t, PlanOps(t.mem, q), u);
  }

  // ---- what a plan leaves, and what a cut of it leaves -----------------------------

  /** The range that an act other than a saving can change. */
  function Low(x: Act): nat {
    match x case Save(at, _) => at case Rewrite(at, _) => SubsectorBegin(at) case Burn(at, _) => at case Wipe(start, _) => start * SUBSECTOR
  }

  function High(x: Act): (hi: nat)
    ensures hi <= INDEX
  {
    match x
    case Save(at, d) => at + |d|
    case Rewrite(at, d) =>
      SubsectorsCover(at, |d|);
      SubsectorBegin(at) + SubsectorCount(at, |d|) * SUBSECTOR
    case Burn(at, d) => at + |d|
    case Wipe(start, n) => (start + n) * SUBSECTOR
  }

  lemma ActTouches(f: Image, x: Act)
    requires !x.Save?
    ensures TouchesOnly(ActOps(f, x), Low(x), High(x))
  {
    match x
    case Rewrite(at, d) =>
      hide CopyOps;
      SubsectorsCover(at, |d|);
      CopyTouches(Splice(f, at, d), SubsectorBegin(at), SubsectorBegin(at), SubsectorCount(at, |d|));
    case Burn(at, d) => ProgramTouches(at, d);
    case Wipe(start, n) =>
  }

  /** An act cut anywhere: a saving is all or nothing, and anything else stays in
      its range. */
  lemma ActCut(f: Image, x: Act, k: nat)
    requires Settled(f) && k <= |ActOps(f, x)|
    ensures var g := RunTo(f, ActOps(f, x), k);
            && Sound(g)
            && (x.Save? ==> Contents(g) == f[..INDEX] || Contents(g) == Acted(f[..INDEX], x))
            && (!x.Save? ==> SameBut(Contents(g), f[..INDEX], Low(x), High(x)))
  {
    hide Run, RunTo, Contents, Sound, SecureWriteOps, WriteOps, ReadRecord, CommitPoint, SameBut, Splice, TouchesOnly, Low, High;
    if x.Save? {
      SecureWriteCut(f, x.at, x.d, k);
      SpliceBelow(f, x.at, x.d);
    } else {
      ActTouches(f, x);
      CutKeepsIndex(f, ActOps(f, x), Low(x), High(x), k);
    }
  }

  lemma ActDone(f: Image, x: Act)
    requires Settled(f)
    ensures var g := Run(f, ActOps(f, x)); Settled(g) && g[..INDEX] == Acted(f[..INDEX], x)
  {
    hide Run, RunTo, Contents, Sound, SecureWriteOps, WriteOps, ReadRecord, CommitPoint, SameBut, Splice, TouchesOnly, EraseOps,
      ProgramOps, Masked, Anded, Low, High;
    var ops := ActOps(f, x);
    RunEnds(f, ops);
    match x
    case Save(at, d) =>
      SecureWriteCut(f, at, d, |ops|);
      SpliceBelow(f, at, d);
    case Rewrite(at, d) =>
      ActTouches(f, x);
      CutKeepsIndex(f, ops, Low(x), High(x), |ops|);
      WriteIsUpdate(f, at, d);
      SpliceBelow(f, at, d);
    case Burn(at, d) =>
      ActTouches(f, x);
      CutKeepsIndex(f, ops, Low(x), High(x), |ops|);
      RunProgram(f, at, d);
      MaskedBelow(f, at, d);
    case Wipe(start, n) =>
      ActTouches(f, x);
      CutKeepsIndex(f, ops, Low(x), High(x), |ops|);
      EraseDone(f, start, n);
      SpliceBelow(f, start * SUBSECTOR, Blank(n * SUBSECTOR));
  }

  lemma MaskedBelow(f: Image, a: nat, d: seq<byte>)
    requires a + |d| <= INDEX
    ensures Masked(f, a, d)[..INDEX] == Anded(f[..INDEX], a, d)
  {
    hide And;
  }

  lemma {:induction false} PlanDone(f: Image, plan: seq<Act>)
    requires Settled(f)
    ensures var g := Run(f, PlanOps(f, plan)); Settled(g) && g[..INDEX] == Played(f[..INDEX], plan)
  {
    hide ActOps, Acted, Settled, Run;
    if plan == [] {
      NothingRun(f);
    } else {
      var n := |plan| - 1;
      var before := PlanOps(f, plan[..n]);
      PlanDone(f, plan[..n]);
      ActDone(Run(f, before), plan[n]);
      RunConcat(f, before, ActOps(Run(f, before), plan[n]));
    }
  }

  /** The flash after a chip has followed a plan. */
  lemma PlannedDisk(s: Chip, plan: seq<Act>, t: Chip)
    requires Settled(s.mem) && Planned(s, plan, t)
    ensures Settled(t.mem) && t.mem[..INDEX] == Played(s.mem[..INDEX], plan)
  {
    hide Run, PlanOps, Settled;
    PlanDone(s.mem, plan);
    DidIs(s, PlanOps(s.mem, plan), t);
  }

  /** A plan that is cut has carried out some of its acts, and part of one more. */
  lemma {:induction false} PlanCut(f: Image, plan: seq<Act>, k: nat) returns (i: nat, m: nat)
    requires Settled(f) && k <= |PlanOps(f, plan)|
    ensures i <= |plan| && Settled(Run(f, PlanOps(f, plan[..i])))
    ensures var g := Run(f, PlanOps(f, plan[..i]));
            if i == |plan| then RunTo(f, PlanOps(f, plan), k) == g
            else m <= |ActOps(g, plan[i])| && RunTo(f, PlanOps(f, plan), k) == RunTo(g, ActOps(g, plan[i]), m)
  {
    hide ActOps, Run, RunTo, Settled;
    if plan == [] {
      i, m := 0, 0;
      NothingRun(f);
      RunEnds(f, PlanOps(f, plan));
      assert plan[..0] == [];
    } else {
      var n := |plan| - 1;
      var front := plan[..n];
      var before := PlanOps(f, front);
      var last := ActOps(Run(f, before), plan[n]);
      PlanDone(f, front);
      RunCut(f, before, last, k);
      if k < |before| {
        i, m := PlanCut(f, front, k);
        if i == n {
          m := 0;
          RunEnds(Run(f, before), last);
        }
        assert front[..i] == plan[..i];
        assert i < n ==> front[i] == plan[i];
      } else {
        i, m := n, k - |before|;
      }
    }
  }
}
