/** Why data must stay below the journal: an upload that runs on to the end of the
    chip can publish a transaction of its own, and recovery replays it. */
module Overrun {
  import opened Bytes
  import opened Options
  import opened NorFlash
  import opened Streams
  import opened Journal
  import opened ExternalMemory
  import opened Binaries
  import opened Plans
  import opened BinaryManager
  import opened MqttCommands
  import opened Machine
  import opened FlagSafety
  import opened FlagLoss

  // ---- what the system leaves alone ---------------------------------------------------------

  const SPARE := JOURNAL + SUBSECTOR // the second block of the journal

  /** The second block of the journal is blank. */
  predicate Spared(f: Image) {
    f[SPARE..] == Blank(SUBSECTOR)
  }

  /** The index has been emptied. */
  predicate Emptied(f: Image) {
    ReadRecord(f) == Record(UNKNOWN, UNKNOWN)
  }

  /** Savings stay in one subsector. */
  predicate InPlace(x: Act) {
    x.Save? ==> CONFIG <= x.at && x.at + |x.d| <= CONFIG + SUBSECTOR
  }

  predicate AllInPlace(plan: seq<Act>) {
    forall i | 0 <= i < |plan| :: InPlace(plan[i])
  }

  lemma InPlaceBoth(p: seq<Act>, q: seq<Act>)
    requires AllInPlace(p) && AllInPlace(q)
    ensures AllInPlace(p + q)
  {
    hide InPlace;
  }

  lemma TouchesWider(ops: seq<Op>, lo: nat, hi: nat)
    requires TouchesOnly(ops, lo, hi) && hi <= SPARE
    ensures TouchesOnly(ops, 0, SPARE)
  {
  }

  lemma TouchesMore(a: seq<Op>, b: seq<Op>)
    requires TouchesOnly(a, 0, SPARE) && TouchesOnly(b, 0, SPARE)
    ensures TouchesOnly(a + b, 0, SPARE)
  {
    hide Touches;
  }

  lemma SparedAfter(f: Image, ops: seq<Op>)
    requires Spared(f) && TouchesOnly(ops, 0, SPARE)
    ensures Spared(Run(f, ops))
  {
    hide Run, RunTo, TouchesOnly;
    RunEnds(f, ops);
    RunWithin(f, ops, 0, SPARE, |ops|);
    SameSlice(f, Run(f, ops), 0, SPARE, SPARE, SIZE);
    assert f[SPARE..SIZE] == f[SPARE..] && Run(f, ops)[SPARE..SIZE] == Run(f, ops)[SPARE..];
  }

  lemma IndexTouches(f: Image, b: seq<byte>)
    requires |b| == 8
    ensures TouchesOnly(IndexOps(f, b), 0, SPARE)
  {
    hide CopyOps, TouchesOnly, Splice;
    CopyTouches(Splice(f, INDEX, b), INDEX, INDEX, 1);
    TouchesWider(IndexOps(f, b), INDEX, INDEX + 1 * SUBSECTOR);
  }

  lemma HandleTouches(f: Image, r: Record)
    requires Accepted(r) ==> Aligned(r)
    ensures TouchesOnly(HandleOps(f, r), 0, SPARE)
  {
    hide CopyOps, TouchesOnly, IndexOps, Run;
    TouchesNothing(0, SPARE);
    if Accepted(r) {
      var replay := ReplayOps(f, r);
      CopyTouches(f, JOURNAL, r.dest, r.blocks);
      TouchesWider(replay, r.dest, r.dest + r.blocks * SUBSECTOR);
      IndexTouches(Run(f, replay), Blank(8));
      TouchesMore(replay, IndexOps(Run(f, replay), Blank(8)));
    } else {
      IndexTouches(f, Blank(8));
    }
  }

  /** A saving within one subsector takes one block of the journal. */
  lemma SaveTouches(f: Image, a: nat, d: seq<byte>)
    requires CONFIG <= a && a + |d| <= CONFIG + SUBSECTOR
    ensures TouchesOnly(SecureWriteOps(f, a, d), 0, SPARE)
  {
    hide CopyOps, TouchesOnly, IndexOps, Run, HandleOps, Splice;
    var r, stage := WriteRecord(a, |d|), StageOps(f, a, d);
    var staged := Run(f, stage);
    var publish := PublishOps(staged, a, d);
    var handle := HandleOps(Run(staged, publish), r);
    assert r.blocks <= 1;
    CopyTouches(Splice(f, a, d), r.dest, JOURNAL, r.blocks);
    TouchesWider(stage, JOURNAL, JOURNAL + r.blocks * SUBSECTOR);
    IndexTouches(staged, RecordBytes(r));
    HandleTouches(Run(staged, publish), r);
    TouchesMore(publish, handle);
    TouchesMore(stage, publish + handle);
  }

  lemma ActSpares(f: Image, x: Act)
    requires Spared(f) && InPlace(x)
    ensures Spared(Run(f, ActOps(f, x)))
  {
    hide Run, TouchesOnly, SecureWriteOps, WriteOps, ProgramOps, EraseOps, Low, High;
    if x.Save? {
      SaveTouches(f, x.at, x.d);
    } else {
      ActTouches(f, x);
      TouchesWider(ActOps(f, x), Low(x), High(x));
    }
    SparedAfter(f, ActOps(f, x));
  }

  lemma {:induction false} PlanSpares(f: Image, plan: seq<Act>)
    requires Spared(f) && AllInPlace(plan)
    ensures Spared(Run(f, PlanOps(f, plan)))
  {
    hide Run, ActOps, Spared, InPlace;
    if plan == [] {
      NothingRun(f);
    } else {
      var n := |plan| - 1;
      var before := PlanOps(f, plan[..n]);
      PlanSpares(f, plan[..n]);
      ActSpares(Run(f, before), plan[n]);
      RunConcat(f, before, ActOps(Run(f, before), plan[n]));
    }
  }

  // ---- the index -------------------------------------------------------------------------------

  /** A completed saving leaves the index empty. */
  lemma SaveEmpties(f: Image, a: nat, d: seq<byte>)
    requires |d| <= SUBSECTOR && a + |d| <= INDEX
    ensures Emptied(Run(f, SecureWriteOps(f, a, d)))
  {
    hide Run, IndexOps, ReplayOps, StageOps, DecodeRecord;
    var r, stage := WriteRecord(a, |d|), StageOps(f, a, d);
    var staged := Run(f, stage);
    var publish := PublishOps(staged, a, d);
    var published := Run(staged, publish);
    var replay := ReplayOps(published, r);
    var g := Run(published, replay);
    var empty := IndexOps(g, Blank(8));
    assert SecureWriteOps(f, a, d) == stage + (publish + (replay + empty));
    RunConcat(f, stage, publish + (replay + empty));
    RunConcat(staged, publish, replay + empty);
    RunConcat(published, replay, empty);
    RunEnds(g, empty);
    EmptyCut(g, |empty|);
    EmptyNeeded(g);
  }

  lemma ActEmpties(f: Image, x: Act)
    requires Emptied(f) || x.Save?
    ensures Emptied(Run(f, ActOps(f, x)))
  {
    hide Run, RunTo, TouchesOnly, SecureWriteOps, WriteOps, ProgramOps, EraseOps, Low, High, DecodeRecord;
    if x.Save? {
      SaveEmpties(f, x.at, x.d);
    } else {
      var ops := ActOps(f, x);
      ActTouches(f, x);
      RunEnds(f, ops);
      RunWithin(f, ops, Low(x), High(x), |ops|);
      SameSlice(f, Run(f, ops), Low(x), High(x), INDEX, INDEX + 8);
    }
  }

  lemma {:induction false} PlanEmpties(f: Image, plan: seq<Act>)
    requires Emptied(f) || (plan != [] && plan[|plan| - 1].Save?)
    ensures Emptied(Run(f, PlanOps(f, plan)))
  {
    hide Run, ActOps, Emptied;
    if plan == [] {
      NothingRun(f);
    } else {
      var n := |plan| - 1;
      var before := PlanOps(f, plan[..n]);
      if Emptied(f) {
        PlanEmpties(f, plan[..n]);
      }
      ActEmpties(Run(f, before), plan[n]);
      RunConcat(f, before, ActOps(Run(f, before), plan[n]));
    }
  }

  // ---- events --------------------------------------------------------------------------------

  lemma SettingInPlace(c: Component, b: Bin, val: byte)
    ensures AllInPlace(Setting(c, b, val))
  {
  }

  lemma {:induction false} CopyInPlace(v: Disk, n: nat)
    requires BACKUP + n * PAGE <= INDEX
    ensures AllInPlace(CopyActs(v, n))
  {
    hide Played;
    if n > 0 {
      CopyInPlace(v, n - 1);
    }
  }

  lemma UpdateInPlace(r: Ram, v: Disk)
    requires UpdateRoom(Size(r.buffer.bin))
    ensures AllInPlace(UpdateActs(r, v))
  {
    hide Played, CopyActs, Le32, PagesOf, Setting;
    var n := Size(r.buffer.bin);
    var mark := Setting(Backup, r.backup.bin, INVALID);
    var w := Played(v, mark);
    var wipe := Wipe(BACKUP / SUBSECTOR, n / SUBSECTOR + 1);
    PagesFit(n);
    SettingInPlace(Backup, r.backup.bin, INVALID);
    CopyInPlace(Played(w, [wipe]), PagesOf(n));
    InPlaceBoth([wipe], CopyActs(Played(w, [wipe]), PagesOf(n)));
    InPlaceBoth(mark, CopyingActs(w, n));
    InPlaceBoth(mark + CopyingActs(w, n), [Writing(Backup, WithState(r.buffer.bin, VALID))]);
  }

  /** No event saves anything but descriptions and the configuration. */
  lemma StepInPlace(y: Sys, e: Event, internal: seq<byte>)
    ensures AllInPlace(Making(y, e, internal).acts)
  {
    hide Played, UpdateActs, Described, XorAll, BuildId, Le32, FixedSize, Tick, BackupStarted, Setting, AllInPlace, BackupActs, EraseActs,
      StartingBackup, StoreActs, FlagActs, WithState;
    var r, b := y.r, y.r.buffer.bin;
    NoneInPlace();
    FlagInPlace(y.config, 0);
    FlagInPlace(y.config, 1);
    SettingInPlace(Buffer, b, VALID);
    SettingInPlace(Buffer, b, INVALID);
    SettingInPlace(Backup, r.backup.bin, INVALID);
    if Bounded(r, internal) && Room(e, y) {
      match e
      case Round(fault) => YieldInPlace(r, internal, fault);
      case BackUp(check) => StartingInPlace(r, check);
      case Start(q, memory) =>
        if StartReply(y, q).Done? {
          WritingInPlace(Buffer, WithState(Described(q, memory), ERASING));
          InPlaceBoth(FlagActs(y.config, 0), [Writing(Buffer, WithState(Described(q, memory), ERASING))]);
        }
      case Data(p) =>
        if Acceptable(p, y.next) {
          StoreInPlace(b, r.written, p.data.value.value);
        }
      case Update(component, autobackup) =>
        if Overwrites(y, component, autobackup) {
          UpdateInPlace(r, y.v);
        }
      case _ =>
    }
  }

  lemma NoneInPlace()
    ensures AllInPlace([])
  {
  }

  lemma WritingInPlace(c: Component, b: Bin)
    ensures AllInPlace([Writing(c, b)])
  {
  }

  lemma FlagInPlace(c: Config, val: u32)
    ensures AllInPlace(FlagActs(c, val))
  {
    hide Flagged, FlagOf;
  }

  lemma YieldInPlace(r: Ram, internal: seq<byte>, fault: Fault)
    requires Bounded(r, internal) && EraseRoom(r)
    ensures AllInPlace(YieldActs(r, internal, fault))
  {
    hide Le32, Blocks, WithState;
    assert AllInPlace(BackupActs(r, internal, fault));
    assert AllInPlace(EraseActs(r));
    InPlaceBoth(BackupActs(r, internal, fault), EraseActs(r));
  }

  lemma StartingInPlace(r: Ram, checkBuildId: bool)
    ensures AllInPlace(StartingBackup(r, checkBuildId))
  {
    hide BuildId, FixedSize, Le32, WithState;
  }

  lemma StoreInPlace(b: Bin, written: nat, d: seq<byte>)
    requires BUFFER + written + |d| <= INDEX
    ensures AllInPlace(StoreActs(b, written, d))
  {
    SettingInPlace(Buffer, b, INVALID);
    InPlaceBoth(Setting(Buffer, b, INVALID), [Burn(BUFFER + written, d)]);
  }

  lemma StartInPlace(v: Disk)
    ensures AllInPlace(StartActs(v))
  {
    hide Played, Configured, Stored, Fixed, ConfigActs, FixActs, RestoreActs, AllInPlace;
    var config := ConfigActs(ConfigOf(v));
    var w := Played(v, config);
    ConfigInPlace(ConfigOf(v));
    FixInPlace(w, Bootloader);
    FixInPlace(w, Firmware);
    FixInPlace(w, Backup);
    FixInPlace(w, Buffer);
    RestoreInPlace(Fixed(Stored(w, Buffer)));
    InPlaceBoth(FixActs(w, Bootloader), FixActs(w, Firmware));
    InPlaceBoth(FixActs(w, Bootloader) + FixActs(w, Firmware), FixActs(w, Backup));
    InPlaceBoth(FixActs(w, Bootloader) + FixActs(w, Firmware) + FixActs(w, Backup), FixActs(w, Buffer));
    InPlaceBoth(AllFixActs(w), RestoreActs(Fixed(Stored(w, Buffer))));
    InPlaceBoth(config, BootActs(w));
  }

  lemma ConfigInPlace(c: Config)
    ensures AllInPlace(ConfigActs(c))
  {
    hide Configured, Untouched, Corrected;
  }

  lemma FixInPlace(v: Disk, c: Component)
    ensures AllInPlace(FixActs(v, c))
  {
    hide Stored, Fixed, Broken;
  }

  lemma RestoreInPlace(b: Bin)
    ensures AllInPlace(RestoreActs(b))
  {
    var n := PARTITION / SUBSECTOR + 1;
    assert AllInPlace(Wiping(n));
    InPlaceBoth(Wiping(n), [Writing(Buffer, WithState(b, ERASED))]);
  }

  /** The second block of the journal is never used. */
  lemma {:induction false} SparedOn(image: Image, internal: seq<byte>, events: seq<Event>)
    requires Spared(image)
    ensures Spared(ImageAfter(image, internal, events))
  {
    hide Run, PlanOps, Making, StartActs, Spared, AllInPlace, SysAfter, Found, RecoverOps;
    if events == [] {
      var ops, start := Recovering(image), StartActs(Found(image));
      if Sound(image) {
        SparedRecovered(image);
      } else {
        NothingRun(image);
      }
      StartInPlace(Found(image));
      PlanSpares(Run(image, ops), start);
      RunConcat(image, ops, PlanOps(Run(image, ops), start));
    } else {
      var n := |events| - 1;
      SparedOn(image, internal, events[..n]);
      StepInPlace(SysAfter(image, internal, events[..n]), events[n], internal);
      PlanSpares(ImageAfter(image, internal, events[..n]), Making(SysAfter(image, internal, events[..n]), events[n], internal).acts);
    }
  }

  lemma SparedRecovered(image: Image)
    requires Spared(image) && Sound(image)
    ensures Spared(Run(image, RecoverOps(image)))
  {
    hide Run, HandleOps, TouchesOnly;
    HandleTouches(image, ReadRecord(image));
    SparedAfter(image, RecoverOps(image));
  }

  /** Once emptied, the index stays empty between events. */
  lemma {:induction false} EmptiedOn(image: Image, internal: seq<byte>, events: seq<Event>, more: seq<Event>)
    requires Emptied(ImageAfter(image, internal, events))
    ensures Emptied(ImageAfter(image, internal, events + more))
  {
    hide ImageAfter, Emptied;
    if more == [] {
      assert events + more == events;
    } else {
      var n := |more| - 1;
      EmptiedOn(image, internal, events, more[..n]);
      OneEmptied(image, internal, events + more[..n], more[n]);
      assert events + more[..n] + [more[n]] == events + more;
    }
  }

  lemma OneEmptied(image: Image, internal: seq<byte>, events: seq<Event>, e: Event)
    requires Emptied(ImageAfter(image, internal, events))
    ensures Emptied(ImageAfter(image, internal, events + [e]))
  {
    hide Run, PlanOps, Making, Emptied, SysAfter;
    var more := events + [e];
    assert more[..|more| - 1] == events && more[|more| - 1] == e;
    PlanEmpties(ImageAfter(image, internal, events), Making(SysAfter(image, internal, events), e, internal).acts);
  }

  // ---- the overrun ---------------------------------------------------------------------------

  /** A configuration with the flag up, and a buffer being erased. */
  function Scheduling(): (c: seq<byte>)
    ensures |c| == SUBSECTOR
  {
    var at := Place(Buffer) - CONFIG + 156;
    WORD + Blank(at - 4) + [ERASING] + Blank(SUBSECTOR - at - 1)
  }

  /** What is sent from the journal on: a record of two blocks that end with the
      configuration's first subsector, and what the second is to be. */
  function Tail(): (d: seq<byte>)
    ensures |d| == SIZE - INDEX
  {
    RecordBytes(Record(2, CONFIG - SUBSECTOR)) + Blank(SPARE - INDEX - 8) + Scheduling()
  }

  /** The parts that arrive before, of which there are enough to reach the journal. */
  function Before(): seq<Event> {
    Erasure(1) + Blanks(PARTS)
  }

  /** Everything in order so far, except that it is too much. */
  lemma BeforeRuns(image: Image, internal: seq<byte>)
    requires Sound(image) && |internal| == FIRMWARE_SIZE && Spared(image)
    ensures var y, f := SysAfter(image, internal, Before()), ImageAfter(image, internal, Before());
            && Roomy(image, internal, Before()) && Declaring(Before(), 2) && Receiving(y, PARTS)
            && Settled(f) && f[..INDEX] == y.v && Emptied(f) && Spared(f)
  {
    hide SysAfter, ImageAfter, Receiving, Roomy, Room, After, Bounded, Emptied, Spared, Settled, Blanks, Waiting, Declaring, Flag;
    Rested(image, internal);
    NoneRoomy(image, internal);
    ErasureRuns(image, internal, [], 1);
    assert [] + Erasure(1) == Erasure(1);
    WaitingReceives(SysAfter(image, internal, Erasure(1)), 1);
    FillingOn(image, internal, Erasure(1), PARTS);
    Together(image, internal, Before());
    SparedOn(image, internal, Before());
    OpeningEmpties(image, internal);
    assert [Opening(1)] + (Rounds(1 / SUBSECTOR + 2) + Blanks(PARTS)) == Before();
    EmptiedOn(image, internal, [Opening(1)], Rounds(1 / SUBSECTOR + 2) + Blanks(PARTS));
    BeforeDeclares();
  }

  lemma WaitingReceives(y: Sys, size: u32)
    requires Waiting(y, size)
    ensures Receiving(y, 0)
  {
  }

  lemma BeforeDeclares()
    ensures Declaring(Before(), 2)
  {
    hide PartOf;
  }

  lemma OpeningEmpties(image: Image, internal: seq<byte>)
    requires Sound(image) && |internal| == FIRMWARE_SIZE
    ensures Emptied(ImageAfter(image, internal, [Opening(1)]))
  {
    hide Run, PlanOps, Emptied, BootSys, BootImage, Described, FlagActs, Played, Bounded;
    var y, f := SysAfter(image, internal, []), ImageAfter(image, internal, []);
    Rested(image, internal);
    Together(image, internal, []);
    var acts := Making(y, Opening(1), internal).acts;
    assert acts != [] && acts[|acts| - 1].Save?;
    PlanEmpties(f, acts);
    assert [Opening(1)][..0] == [];
  }

  /** After the rest of the data the index holds a record, and what the chip stands
      for is an update scheduled from a buffer that is being erased. */
  lemma TailPublishes(f: Image)
    requires Emptied(f) && Spared(f)
    ensures var g := Masked(f, INDEX, Tail());
            && Sound(g) && g[..INDEX] == f[..INDEX]
            && State(Stored(Contents(g), Buffer)) == ERASING && Flag(Contents(g)) == 1 && !UpdateSafe(Contents(g))
  {
    hide Masked, Tail, Scheduling, Contents, Le32, DecodeRecord, Stored, Flag, Spared, Emptied;
    var g := Masked(f, INDEX, Tail());
    TailBelow(f);
    TailRecord(f);
    TailReplayed(f);
    SchedulingFlag(Contents(g));
    LosingUnsafe(Contents(g));
  }

  /** One more part of it. */
  lemma TailMore(f: Image, s: Chip, b: Bin, x: nat, y: nat, t: Chip)
    requires x <= y <= SIZE - INDEX && s.mem == Masked(f, INDEX, Tail()[..x]) && State(b) == INVALID
    requires Did(s, PartOps(s.mem, b, INDEX + x, Tail()[x..y]), t)
    ensures t.mem == Masked(f, INDEX, Tail()[..y])
  {
    hide Masked, Tail, ProgramOps, Run, Setting;
    var d := Tail();
    assert Setting(Buffer, b, INVALID) == [] by {
      NotSet(b);
    }
    assert PlanOps(s.mem, []) == [];
    assert PartOps(s.mem, b, INDEX + x, d[x..y]) == ProgramOps(INDEX + x, d[x..y]);
    ProgramDone(s, INDEX + x, d[x..y], t);
    MaskedMore(f, INDEX, d, x, y);
  }

  lemma NotSet(b: Bin)
    requires State(b) == INVALID
    ensures Setting(Buffer, b, INVALID) == []
  {
  }

  lemma MaskedMore(f: Image, a: nat, d: seq<byte>, x: nat, y: nat)
    requires x <= y <= |d| && a + |d| <= SIZE
    ensures Masked(Masked(f, a, d[..x]), a + x, d[x..y]) == Masked(f, a, d[..y])
  {
    hide And;
  }

  lemma TailBelow(f: Image)
    ensures Masked(f, INDEX, Tail())[..INDEX] == f[..INDEX]
  {
    hide And, Tail;
  }

  /** What lands on erased cells. */
  lemma TailAt(f: Image, i: nat)
    requires INDEX <= i < SIZE && f[i] == 0xFF
    ensures Masked(f, INDEX, Tail())[i] == Tail()[i - INDEX]
  {
    hide And, Tail;
    AndErased(Tail()[i - INDEX]);
  }

  lemma TailRecord(f: Image)
    requires Emptied(f)
    ensures ReadRecord(Masked(f, INDEX, Tail())) == Record(2, CONFIG - SUBSECTOR)
  {
    hide Masked, Tail, RecordBytes, DecodeRecord, Scheduling;
    var g, b, r := Masked(f, INDEX, Tail()), f[INDEX..INDEX + 8], Record(2, CONFIG - SUBSECTOR);
    EmptyBytes(b);
    TailParts();
    forall i | INDEX <= i < INDEX + 8
      ensures g[i] == RecordBytes(r)[i - INDEX]
    {
      assert f[i] == b[i - INDEX];
      TailAt(f, i);
    }
    assert g[INDEX..INDEX + 8] == RecordBytes(r);
    RecordRoundTrip(r);
  }

  lemma EmptyBytes(b: seq<byte>)
    requires |b| == 8 && DecodeRecord(b) == Record(UNKNOWN, UNKNOWN)
    ensures forall i | 0 <= i < 8 :: b[i] == 0xFF
  {
    hide Le32;
    AllOnes(b[..4]);
    AllOnes(b[4..]);
    assert forall i | 0 <= i < 4 :: b[i] == b[..4][i];
    assert forall i | 4 <= i < 8 :: b[i] == b[4..][i - 4];
  }

  lemma TailParts()
    ensures forall i | 0 <= i < 8 :: Tail()[i] == RecordBytes(Record(2, CONFIG - SUBSECTOR))[i]
    ensures Tail()[SPARE - INDEX..] == Scheduling()
  {
    hide RecordBytes, Scheduling;
  }

  lemma TailReplayed(f: Image)
    requires Spared(f) && ReadRecord(Masked(f, INDEX, Tail())) == Record(2, CONFIG - SUBSECTOR)
    ensures var g := Masked(f, INDEX, Tail()); Sound(g) && Contents(g)[CONFIG..CONFIG + SUBSECTOR] == Scheduling()
  {
    hide Masked, Tail, Scheduling, DecodeRecord, Splice, ReadRecord;
    var g, begin := Masked(f, INDEX, Tail()), CONFIG - SUBSECTOR;
    var d := g[JOURNAL..JOURNAL + 2 * SUBSECTOR];
    TailParts();
    forall i | SPARE <= i < SIZE
      ensures g[i] == Scheduling()[i - SPARE]
    {
      assert f[i] == f[SPARE..][i - SPARE];
      TailAt(f, i);
      assert Tail()[SPARE - INDEX..][i - SPARE] == Tail()[i - INDEX];
    }
    assert d[SUBSECTOR..2 * SUBSECTOR] == g[SPARE..SIZE] == Scheduling();
    var w := Splice(g, begin, d);
    SpliceSlice(g, begin, d, CONFIG, CONFIG + SUBSECTOR);
    SliceBelow(w, CONFIG, CONFIG + SUBSECTOR);
  }

  lemma SchedulingFlag(v: Disk)
    requires v[CONFIG..CONFIG + SUBSECTOR] == Scheduling()
    ensures State(Stored(v, Buffer)) == ERASING && Flag(v) == 1
  {
    hide Scheduling;
    SchedulingParts();
    var c, at := v[CONFIG..CONFIG + SUBSECTOR], Place(Buffer) - CONFIG + 156;
    assert v[CONFIG..CONFIG + 4] == c[..4] == WORD;
    assert Stored(v, Buffer)[156] == v[Place(Buffer) + 156] == c[at];
  }

  lemma SchedulingParts()
    ensures Scheduling()[..4] == WORD && Scheduling()[Place(Buffer) - CONFIG + 156] == ERASING
  {
  }
}
