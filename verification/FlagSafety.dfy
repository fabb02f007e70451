/** No update is ever scheduled from a buffer that is being, or has been, erased:
    whatever the events, in order or not, and wherever power fails, as long as
    every upload declares less than 4 MiB and its data stays below the journal. */
module FlagSafety {
  import opened Bytes
  import opened Options
  import opened NorFlash
  import opened Streams
  import opened Journal
  import opened ExternalMemory
  import opened Binaries
  import opened Plans
  import opened BinaryManager
  import opened MqttCommands
  import opened Machine

  /** Is an update safe, or no update scheduled? */
  predicate Safe(b: Bin, c: Config) {
    State(b) == ERASING || State(b) == ERASED ==> FlagOf(c) == 0
  }

  /** RAM holds the buffer's description `b` and the configuration `c`, of which
      the flash `v` shows as much as matters here. Data that runs over the
      configuration can damage all the rest of both. */
  predicate Agrees(v: Disk, b: Bin, c: Config) {
    Safe(b, c) && State(Stored(v, Buffer)) == State(b) && (FlagOf(c) == 0 ==> Flag(v) == 0)
  }

  lemma AgreesIsSafe(v: Disk, b: Bin, c: Config)
    requires Agrees(v, b, c)
    ensures FlagSafe(v)
  {
    hide Le32, Stored;
  }

  lemma SafeAgrees(v: Disk)
    requires FlagSafe(v)
    ensures Agrees(v, Stored(v, Buffer), ConfigOf(v))
  {
    hide Le32, Stored;
    FlagIsConfig(v);
  }

  /** In RAM as on the flash. */
  predicate Kept(y: Sys) {
    Agrees(y.v, y.r.buffer.bin, y.config)
  }

  // ---- acts --------------------------------------------------------------------------

  /** Does this act leave the configuration partition alone? */
  predicate Below(x: Act) {
    !x.Save? && High(x) <= CONFIG
  }

  lemma BelowKeeps(v: Disk, w: Disk, b: Bin, c: Config)
    requires Agrees(v, b, c) && SameBut(w, v, 0, CONFIG)
    ensures Agrees(w, b, c)
  {
    hide Le32;
    StoredElsewhere(v, w, 0, CONFIG);
    assert w[CONFIG..CONFIG + 4] == v[CONFIG..CONFIG + 4];
  }

  lemma BelowActs(v: Disk, x: Act, b: Bin, c: Config)
    requires Agrees(v, b, c) && Below(x)
    ensures Agrees(Acted(v, x), b, c)
  {
    hide Le32, And, Agrees;
    var w := Acted(v, x);
    assert SameBut(w, v, 0, CONFIG) by {
      match x
      case Rewrite(at, d) =>
        SubsectorsCover(at, |d|);
        SpliceSameBut(v, at, d);
      case Burn(at, d) =>
      case Wipe(start, n) => SpliceSameBut(v, start * SUBSECTOR, Blank(n * SUBSECTOR));
    }
    BelowKeeps(v, w, b, c);
  }

  /** Programming only clears bits, and the state of an invalid buffer has none. */
  lemma BurnActs(v: Disk, at: nat, d: seq<byte>, b: Bin, c: Config)
    requires at + |d| <= INDEX && Agrees(v, b, c) && State(b) == INVALID
    ensures Agrees(Acted(v, Burn(at, d)), b, c)
  {
    hide Le32, And, Stored;
    var w := Acted(v, Burn(at, d));
    ClearedState(v, w, at, d);
    if FlagOf(c) == 0 {
      ClearedFlag(v, w, at, d);
    }
  }

  /** Has `w` no bit that `v` has not? */
  predicate Cleared(w: Disk, v: Disk, at: nat, d: seq<byte>)
    requires at + |d| <= INDEX
  {
    forall i | 0 <= i < INDEX :: w[i] == if at <= i < at + |d| then And(v[i], d[i - at]) else v[i]
  }

  lemma ClearedState(v: Disk, w: Disk, at: nat, d: seq<byte>)
    requires at + |d| <= INDEX && Cleared(w, v, at, d) && State(Stored(v, Buffer)) == INVALID
    ensures State(Stored(w, Buffer)) == INVALID
  {
    hide And;
    var i := Place(Buffer) + 156;
    assert Stored(v, Buffer)[156] == v[i] && Stored(w, Buffer)[156] == w[i];
  }

  lemma ClearedFlag(v: Disk, w: Disk, at: nat, d: seq<byte>)
    requires at + |d| <= INDEX && Cleared(w, v, at, d) && Flag(v) == 0
    ensures Flag(w) == 0
  {
    hide And;
    var x, y := v[CONFIG..CONFIG + 4], w[CONFIG..CONFIG + 4];
    assert x[0] == v[CONFIG] && x[1] == v[CONFIG + 1] && x[2] == v[CONFIG + 2] && x[3] == v[CONFIG + 3];
    assert y[0] == w[CONFIG] && y[1] == w[CONFIG + 1] && y[2] == w[CONFIG + 2] && y[3] == w[CONFIG + 3];
  }

  /** Saving the description of `e`. */
  lemma WritingActs(v: Disk, e: Component, x: Bin, b: Bin, c: Config)
    requires Agrees(v, b, c) && (e == Buffer ==> Safe(x, c))
    ensures Agrees(Acted(v, Writing(e, x)), if e == Buffer then x else b, c)
  {
    hide Le32, Stored, Splice;
    SavingStores(v, e, x);
    assert Acted(v, Writing(e, x)) == Saving(v, e, x);
  }

  /** Saving the configuration. */
  lemma ConfiguringActs(v: Disk, d: Config, b: Bin, c: Config)
    requires Agrees(v, b, c) && Safe(b, d)
    ensures Agrees(Acted(v, Save(CONFIG, d)), b, d)
  {
    hide Le32, Stored;
    SavingConfigKeeps(v, d);
    assert Acted(v, Save(CONFIG, d)) == SavingConfig(v, d);
  }

  // ---- plans -------------------------------------------------------------------------

  /** Does this act, done or cut short, leave the flag of `v` safe? A saving is
      never cut short. */
  predicate Harmless(v: Disk, x: Act) {
    x.Save? || Below(x) || (x.Burn? && State(Stored(v, Buffer)) == INVALID)
  }

  /** From `v` on, every act of the plan keeps the flag safe, and the last leaves
      what agrees with the description `b` and the configuration `c`. */
  predicate Keeping(v: Disk, plan: seq<Act>, b: Bin, c: Config) {
    && Agrees(Played(v, plan), b, c)
    && (forall i | 0 <= i < |plan| :: Harmless(Played(v, plan[..i]), plan[i]))
    && (forall i | 0 <= i <= |plan| :: FlagSafe(Played(v, plan[..i])))
  }

  lemma KeepingNothing(v: Disk, b: Bin, c: Config)
    requires Agrees(v, b, c)
    ensures Keeping(v, [], b, c)
  {
    hide FlagSafe, Agrees;
    var none: seq<Act> := [];
    AgreesIsSafe(v, b, c);
    assert none[..0] == none;
  }

  lemma KeepingMore(v: Disk, plan: seq<Act>, x: Act, b: Bin, c: Config, b': Bin, c': Config)
    requires Keeping(v, plan, b, c) && Harmless(Played(v, plan), x) && Agrees(Acted(Played(v, plan), x), b', c')
    ensures Keeping(v, plan + [x], b', c')
  {
    hide FlagSafe, Acted, Harmless, Agrees;
    var more := plan + [x];
    AgreesIsSafe(Acted(Played(v, plan), x), b', c');
    assert more[..|plan|] == plan;
    forall i | 0 <= i < |more|
      ensures Harmless(Played(v, more[..i]), more[i]) && FlagSafe(Played(v, more[..i]))
    {
      if i < |plan| {
        assert more[..i] == plan[..i];
      } else {
        assert more[..i] == plan && plan[..i] == plan;
      }
    }
    assert more[..|more|] == more;
  }

  /** One plan after another. */
  lemma {:induction false} KeepingBoth(v: Disk, p: seq<Act>, q: seq<Act>, b: Bin, c: Config, b': Bin, c': Config)
    requires Keeping(v, p, b, c) && Keeping(Played(v, p), q, b', c')
    ensures Keeping(v, p + q, b', c')
  {
    hide FlagSafe, Acted, Harmless, Agrees, Played;
    PlayedConcat(v, p, q);
    forall i | 0 <= i <= |p + q|
      ensures FlagSafe(Played(v, (p + q)[..i]))
      ensures i < |p + q| ==> Harmless(Played(v, (p + q)[..i]), (p + q)[i])
    {
      if i < |p| {
        assert (p + q)[..i] == p[..i];
      } else {
        assert (p + q)[..i] == p + q[..i - |p|];
        PlayedConcat(v, p, q[..i - |p|]);
      }
    }
  }

  lemma KeepingBelow(v: Disk, plan: seq<Act>, x: Act, b: Bin, c: Config)
    requires Keeping(v, plan, b, c) && Below(x)
    ensures Keeping(v, plan + [x], b, c)
  {
    hide Agrees, Acted, Below, FlagSafe;
    BelowActs(Played(v, plan), x, b, c);
    KeepingMore(v, plan, x, b, c, b, c);
  }

  lemma KeepingBurn(v: Disk, plan: seq<Act>, at: nat, d: seq<byte>, b: Bin, c: Config)
    requires at + |d| <= INDEX && Keeping(v, plan, b, c) && State(b) == INVALID
    ensures Keeping(v, plan + [Burn(at, d)], b, c)
  {
    hide Acted, Below, FlagSafe, Stored, Le32;
    BurnActs(Played(v, plan), at, d, b, c);
    KeepingMore(v, plan, Burn(at, d), b, c, b, c);
  }

  lemma KeepingWriting(v: Disk, plan: seq<Act>, e: Component, x: Bin, b: Bin, c: Config)
    requires Keeping(v, plan, b, c) && (e == Buffer ==> Safe(x, c))
    ensures Keeping(v, plan + [Writing(e, x)], if e == Buffer then x else b, c)
  {
    hide Agrees, Acted, Below, Safe, FlagSafe;
    WritingActs(Played(v, plan), e, x, b, c);
    KeepingMore(v, plan, Writing(e, x), b, c, if e == Buffer then x else b, c);
  }

  lemma KeepingConfiguring(v: Disk, plan: seq<Act>, d: Config, b: Bin, c: Config)
    requires Keeping(v, plan, b, c) && Safe(b, d)
    ensures Keeping(v, plan + [Save(CONFIG, d)], b, d)
  {
    hide Agrees, Acted, Below, Safe, FlagSafe;
    ConfiguringActs(Played(v, plan), d, b, c);
    KeepingMore(v, plan, Save(CONFIG, d), b, c, b, d);
  }

  lemma KeepingSetting(v: Disk, plan: seq<Act>, e: Component, x: Bin, val: byte, b: Bin, c: Config)
    requires Keeping(v, plan, b, c) && (e == Buffer ==> x == b && Safe(WithState(b, val), c))
    ensures Keeping(v, plan + Setting(e, x, val), if e == Buffer then WithState(b, val) else b, c)
  {
    hide Keeping, Safe;
    if State(x) == val {
      assert plan + [] == plan;
      assert WithState(x, val) == x;
    } else {
      KeepingWriting(v, plan, e, WithState(x, val), b, c);
    }
  }

  /** A plan that keeps the flag safe keeps it wherever it is cut. */
  lemma KeepingCut(f: Image, plan: seq<Act>, b: Bin, c: Config, k: nat)
    requires Settled(f) && Keeping(f[..INDEX], plan, b, c) && k <= |PlanOps(f, plan)|
    ensures var g := RunTo(f, PlanOps(f, plan), k); Sound(g) && FlagSafe(Contents(g))
  {
    hide Run, RunTo, ActOps, PlanOps, Played, Settled, Sound, Contents, FlagSafe, Harmless, Agrees;
    var i, m := PlanCut(f, plan, k);
    var g := Run(f, PlanOps(f, plan[..i]));
    PlanDone(f, plan[..i]);
    if i == |plan| {
      SettledContents(g);
    } else {
      PlayedNext(f[..INDEX], plan, i);
      HarmlessCut(g, plan[i], m);
    }
  }

  lemma HarmlessCut(f: Image, x: Act, k: nat)
    requires Settled(f) && Harmless(f[..INDEX], x) && FlagSafe(f[..INDEX]) && FlagSafe(Acted(f[..INDEX], x)) && k <= |ActOps(f, x)|
    ensures var g := RunTo(f, ActOps(f, x), k); Sound(g) && FlagSafe(Contents(g))
  {
    hide Run, RunTo, ActOps, Settled, Sound, Contents, FlagSafe, Below, Stored;
    ActCut(f, x, k);
    if x.Save? {
    } else if Below(x) {
      FlagElsewhere(f[..INDEX], Contents(RunTo(f, ActOps(f, x), k)), x);
    } else {
      BurnCut(f, x.at, x.d, k);
    }
  }

  lemma BurnCut(f: Image, at: nat, d: seq<byte>, k: nat)
    requires at + |d| <= INDEX && Settled(f) && State(Stored(f[..INDEX], Buffer)) == INVALID
    requires k <= |ActOps(f, Burn(at, d))|
    ensures var g := RunTo(f, ActOps(f, Burn(at, d)), k); Sound(g) && FlagSafe(Contents(g))
  {
    hide Run, RunTo, Settled, Sound, Contents, Stored, Flag, Masked, TouchesOnly, SameBut, Cleared;
    var ops := ProgramOps(at, d);
    var g := RunTo(f, ops, k);
    BurnPrefix(f, at, d, k);
    ActTouches(f, Burn(at, d));
    CutKeepsIndex(f, ops, at, at + |d|, k);
    SettledContents(g);
    MaskedClears(f, at, d[..k]);
    ClearedState(f[..INDEX], g[..INDEX], at, d[..k]);
  }

  lemma BurnPrefix(f: Image, at: nat, d: seq<byte>, k: nat)
    requires at + |d| <= INDEX && k <= |d|
    ensures RunTo(f, ProgramOps(at, d), k) == Masked(f, at, d[..k])
  {
    hide Run, Masked;
    assert ProgramOps(at, d)[..k] == ProgramOps(at, d[..k]);
    RunProgram(f, at, d[..k]);
  }

  lemma MaskedClears(f: Image, at: nat, d: seq<byte>)
    requires at + |d| <= INDEX
    ensures Cleared(Masked(f, at, d)[..INDEX], f[..INDEX], at, d)
  {
    hide And;
  }

  lemma PlayedNext(v: Disk, plan: seq<Act>, i: nat)
    requires i < |plan|
    ensures Played(v, plan[..i + 1]) == Acted(Played(v, plan[..i]), plan[i])
  {
    hide Acted;
    assert plan[..i + 1][..i] == plan[..i];
  }

  lemma FlagElsewhere(v: Disk, w: Disk, x: Act)
    requires Below(x) && FlagSafe(v) && SameBut(w, v, Low(x), High(x))
    ensures FlagSafe(w)
  {
    hide Le32, Low, High, FlagSafe, Agrees;
    assert SameBut(w, v, 0, CONFIG);
    SafeAgrees(v);
    BelowKeeps(v, w, Stored(v, Buffer), ConfigOf(v));
    AgreesIsSafe(w, Stored(v, Buffer), ConfigOf(v));
  }

  // ---- events -------------------------------------------------------------------------

  lemma FlaggedIs(c: Config, val: u32)
    ensures FlagOf(Flagged(c, val)) == val
  {
    hide Le32;
    assert (ToLe32(val) + c[4..])[0..4] == ToLe32(val);
  }

  lemma KeepingFlag(v: Disk, val: u32, b: Bin, c: Config)
    requires Agrees(v, b, c) && Safe(b, Flagged(c, val))
    ensures Keeping(v, FlagActs(c, val), b, Flagged(c, val))
  {
    hide Agrees, Keeping, Safe, Le32;
    KeepingNothing(v, b, c);
    if FlagOf(c) != val {
      KeepingConfiguring(v, [], Flagged(c, val), b, c);
      assert [] + FlagActs(c, val) == FlagActs(c, val);
    }
  }

  lemma KeptSafe(y: Sys)
    requires Kept(y)
    ensures Safe(y.r.buffer.bin, y.config) && FlagSafe(y.v)
  {
    hide Le32, Stored;
  }

  /** Does what this event erases and copies leave the configuration alone? */
  predicate Confined(e: Event, y: Sys) {
    match e
    case Round(_) =>
      State(y.r.buffer.bin) == ERASING && y.r.eraseIndex < y.r.eraseCounter ==> y.r.eraseIndex * SUBSECTOR + SUBSECTOR <= CONFIG
    case Update(component, autobackup) => Overwrites(y, component, autobackup) ==> Reach(Size(y.r.buffer.bin)) <= CONFIG
    case _ => true
  }

  /** How far an update of this size reaches. */
  function Reach(size: nat): nat {
    BACKUP + (size / SUBSECTOR + 1) * SUBSECTOR
  }

  lemma RoundKeeps(y: Sys, fault: Fault, internal: seq<byte>)
    requires Kept(y) && Bounded(y.r, internal) && EraseRoom(y.r) && Confined(Round(fault), y)
    ensures Keeping(y.v, YieldActs(y.r, internal, fault), Tick(y.r, fault).0.buffer.bin, y.config)
  {
    hide Agrees, Keeping, Played, BackupActs, Le32;
    var b, c, acts := y.r.buffer.bin, y.config, BackupActs(y.r, internal, fault);
    KeptSafe(y);
    BackupKeepsFlag(y, fault, internal);
    if State(b) == ERASING {
      if y.r.eraseIndex < y.r.eraseCounter {
        KeepingBelow(y.v, acts, Wipe(y.r.eraseIndex, 1), b, c);
      } else {
        KeepingWriting(y.v, acts, Buffer, WithState(b, ERASED), b, c);
      }
    } else {
      assert acts + [] == acts;
    }
  }

  lemma BackupKeepsFlag(y: Sys, fault: Fault, internal: seq<byte>)
    requires Kept(y) && Bounded(y.r, internal)
    ensures Keeping(y.v, BackupActs(y.r, internal, fault), y.r.buffer.bin, y.config)
    ensures BackupTick(y.r, fault).0.buffer == y.r.buffer
  {
    hide Agrees, Keeping, Played, Le32;
    var r, b, c := y.r, y.r.buffer.bin, y.config;
    KeepingNothing(y.v, b, c);
    var none: seq<Act> := [];
    if r.backup.busy {
      if r.backupIndex < r.backupCounter {
        if fault != NoFault {
          KeepingSetting(y.v, none, Backup, r.backup.bin, INVALID, b, c);
          assert none + Setting(Backup, r.backup.bin, INVALID) == Setting(Backup, r.backup.bin, INVALID);
        } else {
          BlocksFit(Size(r.firmware.bin), r.backupIndex);
          var at := r.backupIndex * SUBSECTOR;
          var x := Rewrite(BACKUP + at, internal[at..at + SUBSECTOR]);
          KeepingBelow(y.v, none, x, b, c);
          assert none + [x] == [x];
        }
      } else {
        var copy := CopyingState(Backup, r.backup.bin, r.firmware.bin);
        if copy != [] {
          KeepingWriting(y.v, none, Backup, r.firmware.bin, b, c);
          assert none + copy == copy;
        }
        KeepingSetting(y.v, copy, Backup, r.firmware.bin, VALID, b, c);
      }
    }
  }

  lemma StartingKeeps(y: Sys, checkBuildId: bool)
    requires Kept(y)
    ensures Keeping(y.v, StartingBackup(y.r, checkBuildId), y.r.buffer.bin, y.config)
  {
    hide Agrees, Keeping, Played, Le32, BuildId, FixedSize;
    var r, b, c := y.r, y.r.buffer.bin, y.config;
    KeepingNothing(y.v, b, c);
    var none: seq<Act> := [];
    if !Refuses(r, checkBuildId) {
      var fix: seq<Act> := if Unsized(r.firmware.bin) then [Writing(Firmware, FixedSize(r.firmware.bin))] else [];
      if Unsized(r.firmware.bin) {
        KeepingWriting(y.v, none, Firmware, FixedSize(r.firmware.bin), b, c);
        assert none + fix == fix;
      }
      KeepingSetting(y.v, fix, Backup, r.backup.bin, INVALID, b, c);
    }
  }

  lemma SettingKeeps(y: Sys, e: Component, val: byte)
    requires Kept(y) && val != ERASING && val != ERASED && val <= ERASED
    ensures Keeping(y.v, Setting(e, y.r.Get(e).bin, val), if e == Buffer then WithState(y.r.buffer.bin, val) else y.r.buffer.bin, y.config)
  {
    hide Agrees, Keeping, Played, Le32;
    var none: seq<Act> := [];
    KeepingNothing(y.v, y.r.buffer.bin, y.config);
    KeepingSetting(y.v, none, e, y.r.Get(e).bin, val, y.r.buffer.bin, y.config);
    assert none + Setting(e, y.r.Get(e).bin, val) == Setting(e, y.r.Get(e).bin, val);
  }

  /** Copying pages to the backup partition. */
  lemma {:induction false} CopyKeeps(v: Disk, plan: seq<Act>, w: Disk, n: nat, b: Bin, c: Config)
    requires BACKUP + n * PAGE <= CONFIG && Keeping(v, plan, b, c)
    ensures Keeping(v, plan + CopyActs(w, n), b, c)
  {
    hide Keeping, Played, Below;
    if n == 0 {
      assert plan + CopyActs(w, 0) == plan;
    } else {
      CopyKeeps(v, plan, w, n - 1, b, c);
      var before, last := CopyActs(w, n - 1), CopyActs(w, n)[|CopyActs(w, n - 1)|];
      assert CopyActs(w, n) == before + [last];
      LastBelow(w, n);
      KeepingBelow(v, plan + before, last, b, c);
      assert plan + before + [last] == plan + (before + [last]);
    }
  }

  lemma LastBelow(w: Disk, n: nat)
    requires n > 0 && BACKUP + n * PAGE <= CONFIG
    ensures |CopyActs(w, n)| == |CopyActs(w, n - 1)| + 1 && Below(CopyActs(w, n)[|CopyActs(w, n - 1)|])
  {
    hide Played;
  }

  lemma UpdateKeeps(y: Sys)
    requires Kept(y) && UpdateRoom(Size(y.r.buffer.bin)) && Reach(Size(y.r.buffer.bin)) <= CONFIG
    ensures Keeping(y.v, UpdateActs(y.r, y.v), y.r.buffer.bin, y.config)
  {
    hide Agrees, Keeping, Played, Le32, CopyActs, Setting, PagesOf;
    var b, c, n := y.r.buffer.bin, y.config, Size(y.r.buffer.bin);
    var mark, wipe := Setting(Backup, y.r.backup.bin, INVALID), Wipe(BACKUP / SUBSECTOR, n / SUBSECTOR + 1);
    PagesBelow(n);
    SettingKeeps(y, Backup, INVALID);
    KeepingBelow(y.v, mark, wipe, b, c);
    var pages := CopyActs(Played(Played(y.v, mark), [wipe]), PagesOf(n));
    CopyKeeps(y.v, mark + [wipe], Played(Played(y.v, mark), [wipe]), PagesOf(n), b, c);
    assert mark + [wipe] + pages == mark + ([wipe] + pages);
    KeepingWriting(y.v, mark + ([wipe] + pages), Backup, WithState(b, VALID), b, c);
  }

  lemma PagesBelow(n: nat)
    requires Reach(n) <= CONFIG
    ensures BACKUP + PagesOf(n) * PAGE <= CONFIG && BACKUP / SUBSECTOR * SUBSECTOR == BACKUP
    ensures (BACKUP / SUBSECTOR + (n / SUBSECTOR + 1)) * SUBSECTOR <= CONFIG
  {
  }

  lemma StartKeeps(y: Sys, q: StartRequest, memory: Bin)
    requires Kept(y)
    ensures var m := StartStep(y, q, memory); Keeping(y.v, m.acts, m.to.r.buffer.bin, m.to.config)
  {
    hide Agrees, Keeping, Played, Le32, Described, FlagActs, Flagged;
    KeepingNothing(y.v, y.r.buffer.bin, y.config);
    if StartReply(y, q).Done? {
      FlaggedIs(y.config, 0);
      KeepingFlag(y.v, 0, y.r.buffer.bin, y.config);
      KeepingWriting(y.v, FlagActs(y.config, 0), Buffer, WithState(Described(q, memory), ERASING), y.r.buffer.bin, Flagged(y.config, 0));
    }
  }

  lemma DataKeeps(y: Sys, p: Part)
    requires Kept(y) && (Acceptable(p, y.next) ==> BUFFER + y.r.written + |p.data.value.value| <= INDEX)
    ensures var m := DataStep(y, p); Keeping(y.v, m.acts, m.to.r.buffer.bin, m.to.config)
  {
    hide Agrees, Keeping, Played, Le32, XorOn, Setting;
    KeepingNothing(y.v, y.r.buffer.bin, y.config);
    if Acceptable(p, y.next) {
      SettingKeeps(y, Buffer, INVALID);
      KeepingBurn(y.v, Setting(Buffer, y.r.buffer.bin, INVALID), BUFFER + y.r.written, p.data.value.value,
                  WithState(y.r.buffer.bin, INVALID), y.config);
    }
  }

  lemma ScheduleKeeps(y: Sys, component: Option<Option<Target>>, autobackup: u32)
    requires Kept(y) && Confined(Update(component, autobackup), y)
    requires Overwrites(y, component, autobackup) ==> UpdateRoom(Size(y.r.buffer.bin))
    ensures var m := UpdateStep(y, component, autobackup); Keeping(y.v, m.acts, m.to.r.buffer.bin, m.to.config)
  {
    hide Agrees, Keeping, Played, Le32, FlagActs, Flagged, UpdateActs;
    KeepingNothing(y.v, y.r.buffer.bin, y.config);
    if UpdateReply(y, component, autobackup).Done? {
      if component.value.value.ToFirmware? {
        KeepingFlag(y.v, 1, y.r.buffer.bin, y.config);
      } else {
        UpdateKeeps(y);
      }
    }
  }

  /** Whatever the event, the flag stays safe act by act. */
  lemma StepKeeps(y: Sys, e: Event, internal: seq<byte>)
    requires Kept(y) && Bounded(y.r, internal) && Room(e, y) && Confined(e, y)
    ensures var m := After(y, e, internal); Keeping(y.v, m.acts, m.to.r.buffer.bin, m.to.config) && m.to.v == Played(y.v, m.acts)
  {
    hide Kept, Keeping, Played, StartStep, DataStep, UpdateStep, YieldActs, Tick, StartingBackup, BackupStarted, Setting, Le32;
    MakingPlays(y, e, internal);
    match e
    case Round(fault) => RoundKeeps(y, fault, internal);
    case BackUp(check) =>
      StartingKeeps(y, check);
      StartedBuffer(y.r, check);
    case CancelBackup => SettingKeeps(y, Backup, INVALID);
    case Start(q, memory) => StartKeeps(y, q, memory);
    case Data(p) => DataKeeps(y, p);
    case End => SettingKeeps(y, Buffer, if y.received != y.calculated then INVALID else VALID);
    case TimeOut => SettingKeeps(y, Buffer, INVALID);
    case Update(component, autobackup) => ScheduleKeeps(y, component, autobackup);
  }

  lemma StartedBuffer(r: Ram, checkBuildId: bool)
    ensures var q := BackupStarted(r, checkBuildId).0; q.buffer == r.buffer && q.eraseCounter == r.eraseCounter
  {
  }

  lemma KeepingKept(y: Sys, m: Step)
    requires Keeping(y.v, m.acts, m.to.r.buffer.bin, m.to.config) && m.to.v == Played(y.v, m.acts)
    ensures Kept(m.to)
  {
    hide Played, FlagSafe, Stored, ConfigOf;
  }

  // ---- the declared sizes ----------------------------------------------------------------

  const LIMIT := 0x40_0000 // the least declared size whose update reaches the configuration

  lemma LimitIs(size: nat)
    ensures Reach(size) <= CONFIG <==> size < LIMIT
  {
  }

  /** Does this event declare less than `n`, if anything? */
  predicate Declares(e: Event, n: nat) {
    e.Start? && e.q.size.Some? ==> e.q.size.value < n
  }

  /** No upload under way, or to be put to use, is of more than its declared size. */
  predicate Modest(y: Sys) {
    && (State(y.r.buffer.bin) == ERASING ==> y.r.eraseCounter * SUBSECTOR <= LIMIT)
    && (y.received != 0 ==> Size(y.r.buffer.bin) < LIMIT)
  }

  /** Then every event is confined, and there is room for it, unless it is data
      that would reach the journal. */
  lemma ModestConfines(y: Sys, e: Event)
    requires Modest(y)
    ensures Confined(e, y) && (e.Data? || Room(e, y))
  {
    hide Acceptable, State, Le32;
    if e.Update? {
      LimitIs(Size(y.r.buffer.bin));
    }
  }

  lemma ModestStep(y: Sys, e: Event, internal: seq<byte>)
    requires Modest(y) && Bounded(y.r, internal) && Room(e, y) && Declares(e, LIMIT)
    ensures Modest(After(y, e, internal).to)
  {
    hide Played, YieldActs, StartingBackup, UpdateActs, Acceptable, Described, WithState, BackupTick, BackupStarted, XorOn, FlagActs, Le32,
      FixedSize;
    var b := y.r.buffer.bin;
    WithStateMeta(b, VALID);
    WithStateMeta(b, INVALID);
    WithStateMeta(b, ERASED);
    match e
    case Round(fault) => TickBuffer(y.r, fault);
    case BackUp(check) => StartedBuffer(y.r, check);
    case Start(q, memory) =>
      if StartReply(y, q).Done? {
        DescribedSays(q, memory);
        WithStateMeta(Described(q, memory), ERASING);
      }
    case _ =>
  }

  lemma TickBuffer(r: Ram, fault: Fault)
    ensures var q := BackupTick(r, fault).0; q.buffer == r.buffer && q.eraseIndex == r.eraseIndex && q.eraseCounter == r.eraseCounter
  {
    hide WithState;
  }

  // ---- start-up ------------------------------------------------------------------------

  lemma FixingKeeps(v: Disk, plan: seq<Act>, e: Component, b: Bin, c: Config)
    requires Keeping(v, plan, b, c) && Safe(b, c) && (e == Buffer ==> b == Stored(v, Buffer))
    ensures Keeping(v, plan + FixActs(v, e), if e == Buffer then Fixed(b) else b, c)
    ensures e == Buffer ==> Safe(Fixed(b), c)
  {
    hide Keeping, Fixed, Stored, Le32;
    FixedState(Stored(v, e));
    FixedBroken(Stored(v, e));
    if Broken(Stored(v, e)) {
      KeepingWriting(v, plan, e, Fixed(Stored(v, e)), b, c);
    } else {
      assert plan + [] == plan;
    }
  }

  lemma FixedBroken(b: Bin)
    ensures !Broken(b) ==> Fixed(b) == b
  {
  }

  lemma {:induction false} WipingKeeps(v: Disk, plan: seq<Act>, n: nat, b: Bin, c: Config)
    requires n * SUBSECTOR <= CONFIG && Keeping(v, plan, b, c)
    ensures Keeping(v, plan + Wiping(n), b, c)
  {
    hide Keeping;
    if n == 0 {
      assert plan + Wiping(0) == plan;
    } else {
      WipingKeeps(v, plan, n - 1, b, c);
      KeepingBelow(v, plan + Wiping(n - 1), Wipe(n - 1, 1), b, c);
      assert plan + Wiping(n - 1) + [Wipe(n - 1, 1)] == plan + Wiping(n);
    }
  }

  /** Start-up of the binaries, an erasure to be finished included. */
  lemma FixesKeep(v: Disk, c: Config)
    requires Agrees(v, Stored(v, Buffer), c)
    ensures Keeping(v, BootActs(v), BootRam(v).buffer.bin, c)
  {
    hide Keeping, Stored, Fixed, Agrees, Le32, FixActs, Wiping, Safe;
    var b := Stored(v, Buffer);
    var none: seq<Act> := [];
    AgreesParts(v, b, c);
    KeepingNothing(v, b, c);
    FixingKeeps(v, none, Bootloader, b, c);
    FixingKeeps(v, none + FixActs(v, Bootloader), Firmware, b, c);
    FixingKeeps(v, none + FixActs(v, Bootloader) + FixActs(v, Firmware), Backup, b, c);
    FixingKeeps(v, none + FixActs(v, Bootloader) + FixActs(v, Firmware) + FixActs(v, Backup), Buffer, b, c);
    var fix := AllFixActs(v);
    assert none + FixActs(v, Bootloader) + FixActs(v, Firmware) + FixActs(v, Backup) + FixActs(v, Buffer) == fix;
    var n := PARTITION / SUBSECTOR + 1;
    if State(Fixed(b)) == ERASING {
      WipingKeeps(v, fix, n, Fixed(b), c);
      ErasedSafe(Fixed(b), c);
      KeepingWriting(v, fix + Wiping(n), Buffer, WithState(Fixed(b), ERASED), Fixed(b), c);
      assert fix + Wiping(n) + [Writing(Buffer, WithState(Fixed(b), ERASED))] == fix + RestoreActs(Fixed(b));
    } else {
      assert fix + [] == fix;
    }
  }

  lemma AgreesParts(v: Disk, b: Bin, c: Config)
    requires Agrees(v, b, c)
    ensures Safe(b, c)
  {
  }

  lemma ErasedSafe(b: Bin, c: Config)
    requires Safe(b, c) && State(b) == ERASING
    ensures Safe(WithState(b, ERASED), c)
  {
  }

  /** Start-up, the configuration first. */
  lemma BootKeeps(v: Disk)
    requires FlagSafe(v)
    ensures var w := Played(v, ConfigActs(ConfigOf(v)));
            Keeping(v, StartActs(v), BootRam(w).buffer.bin, Configured(ConfigOf(v)))
  {
    hide Keeping, Played, BootActs, BootRam, Configured, ConfigActs, Stored, ConfigOf, Agrees, FlagSafe;
    var b, c, acts := Stored(v, Buffer), ConfigOf(v), ConfigActs(ConfigOf(v));
    var w := Played(v, acts);
    SafeAgrees(v);
    KeepingNothing(v, b, c);
    ConfiguringKeeps(v, b, c);
    FixesKeep(w, Configured(c));
    KeepingBoth(v, acts, BootActs(w), b, Configured(c), BootRam(w).buffer.bin, Configured(c));
  }

  lemma ConfiguringKeeps(v: Disk, b: Bin, c: Config)
    requires b == Stored(v, Buffer) && c == ConfigOf(v) && Agrees(v, b, c)
    ensures var w := Played(v, ConfigActs(c));
            Keeping(v, ConfigActs(c), b, Configured(c)) && Agrees(w, Stored(w, Buffer), Configured(c))
  {
    hide Keeping, Stored, ConfigOf, Agrees, Le32, Untouched, Corrected, FlagSafe, DefaultsOf, Acted;
    AgreesParts(v, b, c);
    ConfiguredFlag(c);
    CorrectedIs(c);
    KeepingNothing(v, b, c);
    PlayedNothing(v);
    if ConfigActs(c) != [] {
      var x := Save(CONFIG, Configured(c));
      KeepingConfiguring(v, [], Configured(c), b, c);
      assert [] + [x] == [x] && ConfigActs(c) == [x];
      PlayedOne(v, x);
      ConfiguringActs(v, Configured(c), b, c);
      ConfiguringStores(v, Configured(c));
    }
  }

  lemma ConfiguringStores(v: Disk, d: Config)
    ensures Stored(Acted(v, Save(CONFIG, d)), Buffer) == Stored(v, Buffer)
  {
    hide Stored;
    SavingConfigKeeps(v, d);
    assert Acted(v, Save(CONFIG, d)) == SavingConfig(v, d);
  }

  // ---- whole lives -----------------------------------------------------------------------

  predicate Declaring(events: seq<Event>, n: nat) {
    forall i | 0 <= i < |events| :: Declares(events[i], n)
  }

  /** In RAM as on the flash, at the end of every event. Next, only data can be
      without room. */
  lemma {:induction false} FlagAfter(image: Image, internal: seq<byte>, events: seq<Event>)
    requires Sound(image) && FlagSafe(Contents(image)) && |internal| == FIRMWARE_SIZE
    requires Declaring(events, LIMIT) && Roomy(image, internal, events)
    ensures var y := SysAfter(image, internal, events);
            && Kept(y) && FlagSafe(y.v) && Safe(y.r.buffer.bin, y.config) && Modest(y)
            && (forall e: Event :: Confined(e, y) && (e.Data? || Room(e, y)))
  {
    hide Kept, Keeping, Played, StartActs, FlagSafe, Contents, After, Room, Bounded, Safe, Modest, Confined, Declares, Roomy;
    if events == [] {
      BootTogether(image, internal);
      BootKeeps(Found(image));
      BootKept(image);
    } else {
      var n := |events| - 1;
      RoomyFront(image, internal, events, n);
      FlagAfter(image, internal, events[..n]);
      Together(image, internal, events[..n]);
      var y := SysAfter(image, internal, events[..n]);
      StepKeeps(y, events[n], internal);
      KeepingKept(y, After(y, events[n], internal));
      ModestStep(y, events[n], internal);
    }
    var y := SysAfter(image, internal, events);
    KeptSafe(y);
    forall e: Event
      ensures Confined(e, y) && (e.Data? || Room(e, y))
    {
      ModestConfines(y, e);
    }
  }

  /** So it is enough that the data stays below the journal. */
  lemma {:induction false} RoomForData(image: Image, internal: seq<byte>, events: seq<Event>)
    requires Sound(image) && FlagSafe(Contents(image)) && |internal| == FIRMWARE_SIZE && Declaring(events, LIMIT)
    ensures Roomy(image, internal, events) <==>
            forall i | 0 <= i < |events| && events[i].Data? :: Room(events[i], SysAfter(image, internal, events[..i]))
  {
    hide SysAfter, Room, Declares, FlagSafe, Contents, Kept, Modest, Safe, Confined;
    if events != [] && forall i | 0 <= i < |events| && events[i].Data? :: Room(events[i], SysAfter(image, internal, events[..i])) {
      var n := |events| - 1;
      var front := events[..n];
      forall i | 0 <= i < n && front[i].Data?
        ensures Room(front[i], SysAfter(image, internal, front[..i]))
      {
        assert front[i] == events[i] && front[..i] == events[..i];
      }
      RoomForData(image, internal, front);
      FlagAfter(image, internal, front);
      RoomyMore(image, internal, front, events[n]);
      assert front + [events[n]] == events;
    }
  }

  lemma BootKept(image: Image)
    requires var v := Found(image);
             Keeping(v, StartActs(v), BootRam(Played(v, ConfigActs(ConfigOf(v)))).buffer.bin, Configured(ConfigOf(v)))
    ensures Kept(BootSys(image)) && Modest(BootSys(image))
  {
    hide Played, StartActs, Stored, ConfigOf, Run, Recovering, Found, Configured, ConfigActs, Fixed, Agrees;
  }

  /** And wherever power fails, in start-up or in any event. */
  lemma FlagLeft(image: Image, internal: seq<byte>, events: seq<Event>, k: nat)
    requires Sound(image) && FlagSafe(Contents(image)) && |internal| == FIRMWARE_SIZE
    requires Declaring(events, LIMIT) && Roomy(image, internal, events)
    ensures var g := LeftBy(image, internal, events, k); Sound(g) && FlagSafe(Contents(g))
  {
    hide Kept, Keeping, Played, StartActs, FlagSafe, Contents, After, Room, Bounded, Sound, Run, RunTo, PlanOps, Safe, RecoverOps,
      SysAfter, ImageAfter, Modest, Confined, Declares, Roomy;
    if events == [] {
      BootCutKeeps(image, internal, Min(k, |BootOps(image)|));
    } else {
      var n := |events| - 1;
      var y, f := SysAfter(image, internal, events[..n]), ImageAfter(image, internal, events[..n]);
      RoomyFront(image, internal, events, n);
      Together(image, internal, events[..n]);
      FlagAfter(image, internal, events[..n]);
      var m := After(y, events[n], internal);
      StepKeeps(y, events[n], internal);
      KeepingCut(f, m.acts, m.to.r.buffer.bin, m.to.config, Min(k, |PlanOps(f, m.acts)|));
    }
  }

  lemma BootCutKeeps(image: Image, internal: seq<byte>, k: nat)
    requires Sound(image) && FlagSafe(Contents(image)) && |internal| == FIRMWARE_SIZE && k <= |BootOps(image)|
    ensures var g := RunTo(image, BootOps(image), k); Sound(g) && FlagSafe(Contents(g))
  {
    hide Keeping, Played, StartActs, BootRam, FlagSafe, Contents, Sound, Run, RunTo, PlanOps, RecoverOps, Settled, Configured, ConfigActs;
    var a, f, v := RecoverOps(image), Run(image, RecoverOps(image)), Found(image);
    BootTogether(image, internal);
    BootKeeps(v);
    RunCut(image, a, PlanOps(f, StartActs(v)), k);
    if k <= |a| {
      RecoverKeeps(image, k);
    } else {
      KeepingCut(f, StartActs(v), BootRam(Played(v, ConfigActs(ConfigOf(v)))).buffer.bin, Configured(ConfigOf(v)), k - |a|);
    }
  }

  predicate AllDeclaring(lives: seq<Life>, n: nat) {
    forall i | 0 <= i < |lives| :: Declaring(lives[i].events, n)
  }

  /** Over any number of lives, each cut anywhere, no update is ever scheduled from
      a buffer being erased, or erased, if less than 4 MiB are declared and there is
      room for every event. */
  lemma {:induction false} FlagLived(image: Image, internal: seq<byte>, lives: seq<Life>)
    requires Sound(image) && FlagSafe(Contents(image)) && |internal| == FIRMWARE_SIZE
    requires AllDeclaring(lives, LIMIT) && AllRoomy(image, internal, lives)
    ensures var g := Lived(false, image, internal, lives); Sound(g) && FlagSafe(Contents(g))
  {
    hide FlagSafe, Contents, Sound, LeftBy, Leading, Declaring, Roomy;
    if lives != [] {
      var n := |lives| - 1;
      AllRoomyFront(image, internal, lives, n);
      FlagLived(image, internal, lives[..n]);
      FlagLeft(Lived(false, image, internal, lives[..n]), internal, lives[n].events, lives[n].k);
    }
  }
}
