/** Whole runs of the device: uploads from start to end, and arbitrary series of
    commands and power cuts. */
module Device {
  import opened Bytes
  import opened Options
  import opened NorFlash
  import opened Streams
  import opened Journal
  import opened ExternalMemory
  import opened Binaries
  import opened Plans
  import opened BinaryManager
  import opened MqttCommands
  import opened Machine
  import opened FlagSafety
  import opened FlagLoss
  import opened Overrun

  /** Delivers a series of parts, good and bad, in whatever order they arrive. */
  method DeliverAll(cmds: Commands, parts: seq<Part>)
    requires cmds.Valid() && cmds.assembling && cmds.accepted == [] && cmds.partIndexExpected == 0
    requires Erased(cmds.bm.Memory()) && |Assembled(parts, 0)| <= Size(cmds.bm.buffer.bin)
    modifies cmds, cmds.bm, cmds.bm.extmem.extflash, cmds.bm.extmem.scratch
    ensures cmds.Valid() && cmds.assembling && cmds.accepted == Assembled(parts, 0)
    ensures cmds.binCrcReceived == old(cmds.binCrcReceived)
    ensures Meta(cmds.bm.buffer.bin) == old(Meta(cmds.bm.buffer.bin)) && State(cmds.bm.buffer.bin) != ERASING
    ensures cmds.bm.backup == old(cmds.bm.backup) && cmds.bm.origin == old(cmds.bm.origin)
  {
    hide Weathered, Good, Saving, Settled, Did, Stored, Le32, XorAll, BackupProgress, EraseProgress, Meta, WithState, Synced,
      Planned, PlanOps, Played, DataStep, StartStep, TickStep, EndStep, Acceptable, DataReply, Assembled;
    ghost var b := cmds.bm.buffer.bin;
    for i := 0 to |parts|
      invariant cmds.Valid() && cmds.assembling && cmds.binCrcReceived == old(cmds.binCrcReceived)
      invariant cmds.accepted + Assembled(parts[i..], cmds.partIndexExpected) == Assembled(parts, 0)
      invariant Meta(cmds.bm.buffer.bin) == Meta(b) && Size(cmds.bm.buffer.bin) == Size(b)
      invariant Erased(cmds.bm.Memory())
      invariant cmds.bm.backup == old(cmds.bm.backup) && cmds.bm.origin == old(cmds.bm.origin)
    {
      var p := parts[i];
      ghost var a, next, now := cmds.accepted, cmds.partIndexExpected, cmds.bm.buffer.bin;
      NextAssembled(parts, i, next, a);
      AssemblySum(cmds.bm.Memory(), cmds.bm.Disk(), cmds.binCrcCalculated, cmds.accepted);
      WithStateMeta(now, INVALID);
      ValidReady(cmds);
      var reply := cmds.UploadData(p);
      SameMeta(cmds.bm.buffer.bin, b);
    }
    NoneAssembled(parts, cmds.partIndexExpected);
  }

  /** What is assembled of the parts from the `i`-th on, behind `a`. */
  lemma NextAssembled(parts: seq<Part>, i: nat, next: nat, a: seq<byte>)
    requires i < |parts|
    ensures parts[0..] == parts
    ensures a + Assembled(parts[i..], next)
         == if Acceptable(parts[i], next) then a + parts[i].data.value.value + Assembled(parts[i + 1..], Next(next))
            else a + Assembled(parts[i + 1..], next)
    ensures Acceptable(parts[i], next) ==> |Assembled(parts[i..], next)| >= |parts[i].data.value.value|
  {
    hide Acceptable, Next;
    assert parts[i..][0] == parts[i] && parts[i..][1..] == parts[i + 1..];
  }

  lemma NoneAssembled(parts: seq<Part>, next: nat)
    ensures Assembled(parts[|parts|..], next) == []
  {
  }

  /** A whole upload: the start, the erasure, the parts in any order, the end.
      It is accepted exactly if the assembled content has the declared checksum,
      and then that content is what lies in the buffer. */
  method UploadSession(cmds: Commands, q: StartRequest, memory: Bin, parts: seq<Part>) returns (reply: Reply)
    requires cmds.Valid() && State(cmds.bm.buffer.bin) != ERASING
    requires q.size.Some? && q.crc.Some? && q.buildId.Some? && q.version.Some?
    requires |Assembled(parts, 0)| <= q.size.value < PARTITION
    modifies cmds, cmds.conf, cmds.bm, cmds.bm.extmem.extflash, cmds.bm.extmem.scratch
    ensures cmds.Valid()
    ensures reply == if XorAll(Assembled(parts, 0)) == q.crc.value then Done else CrcError
    ensures State(cmds.bm.buffer.bin) == if reply.Done? then VALID else INVALID
    ensures Describes(cmds.bm.buffer.bin, q, memory) && Stored(cmds.bm.Disk(), Buffer) == cmds.bm.buffer.bin
    ensures BufferHolds(cmds.bm.Disk(), Assembled(parts, 0), q.size.value)
  {
    hide Weathered, Good, Saving, Settled, Did, Stored, Le32, XorAll, BackupProgress, EraseProgress, Meta, WithState, Synced, Described, Yielded,
      Planned, PlanOps, Played, DataStep, StartStep, TickStep, EndStep, Describes;
    var b := Described(q, memory);
    DescribedSays(q, memory);
    WithStateMeta(b, ERASING);
    ValidReady(cmds);
    reply := cmds.UploadStart(q, memory);
    FinishErasing(cmds, b);
    SameMeta(cmds.bm.buffer.bin, b);
    DeliverAll(cmds, parts);
    SameMeta(cmds.bm.buffer.bin, b);
    AssemblySum(cmds.bm.Memory(), cmds.bm.Disk(), cmds.binCrcCalculated, cmds.accepted);
    ghost var now, r, v, a := cmds.bm.buffer.bin, cmds.bm.Memory(), cmds.bm.Disk(), cmds.accepted;
    ValidReady(cmds);
    reply := cmds.UploadEnd();
    WithStateMeta(now, if reply.Done? then VALID else INVALID);
    SameMeta(cmds.bm.buffer.bin, b);
    AssemblyKept(r, v, XorAll(a), a, cmds.bm.Memory(), cmds.bm.Disk());
    DescribesMeta(b, cmds.bm.buffer.bin, q, memory);
    BufferStored(cmds);
  }

  lemma BufferStored(cmds: Commands)
    requires cmds.Valid()
    ensures Stored(cmds.bm.Disk(), Buffer) == cmds.bm.buffer.bin
  {
    hide Stored, Good, BackupProgress, EraseProgress, Assembly;
    assert Stored(cmds.bm.Disk(), Buffer) == cmds.bm.Memory().Get(Buffer).bin;
  }

  /** The background work, until it reports that there is none left. */
  method FinishErasing(cmds: Commands, b: Bin)
    requires cmds.Valid() && State(cmds.bm.buffer.bin) == ERASING && Meta(cmds.bm.buffer.bin) == Meta(b)
    modifies cmds.bm, cmds.bm.extmem.extflash, cmds.bm.extmem.scratch
    ensures cmds.Valid() && Meta(cmds.bm.buffer.bin) == Meta(b) && State(cmds.bm.buffer.bin) == ERASED && !cmds.bm.backup.busy
    ensures Erased(cmds.bm.Memory())
  {
    hide Weathered, Good, Saving, Settled, Did, Stored, Le32, BackupProgress, EraseProgress, Meta, WithState, Synced, Yielded, Assembly,
      Planned, PlanOps, Played, DataStep, StartStep, TickStep, EndStep;
    var again := true;
    while again
      invariant cmds.Valid() && Meta(cmds.bm.buffer.bin) == Meta(b)
      invariant State(cmds.bm.buffer.bin) == ERASING || (State(cmds.bm.buffer.bin) == ERASED && Erased(cmds.bm.Memory()))
      invariant !again ==> State(cmds.bm.buffer.bin) != ERASING && !cmds.bm.backup.busy
      decreases Work(cmds.bm.Memory()) + if again then 1 else 0
    {
      ghost var r, v := cmds.bm.Memory(), cmds.bm.Disk();
      ProgressBounds(r, v);
      ValidReady(cmds);
      YieldWorks(r, v, cmds.bm.internal, NoFault);
      YieldDescribes(r, v, cmds.bm.internal, NoFault);
      var rc := cmds.Yield(NoFault);
      again := rc != 0;
    }
  }

  // ---- uploads among events ---------------------------------------------------

  predicate Complete(q: StartRequest) {
    q.size.Some? && q.crc.Some? && q.buildId.Some? && q.version.Some?
  }

  /** The parts among some events, in order. */
  function Parts(events: seq<Event>): seq<Part> {
    if events == [] then []
    else
      var front, last := Parts(events[..|events| - 1]), events[|events| - 1];
      if last.Data? then front + [last.p] else front
  }

  /** Is `p` what an upload that begins with the first of these events brings: the
      data of the acceptable parts in order, with the declared checksum, and ones
      up to the declared size? */
  predicate Upload(events: seq<Event>, p: Origin) {
    && events != [] && events[0].Start? && Complete(events[0].q)
    && var q, a := events[0].q, Assembled(Parts(events[1..]), 0);
       && XorAll(a) == q.crc.value && |a| <= q.size.value
       && p == Origin(Meta(Described(q, events[0].memory)), a + Blank(q.size.value - |a|))
  }

  /** An upload in progress is the one that began with the first of these events. */
  predicate Tracking(assembling: bool, accepted: seq<byte>, next: nat, crc: nat, b: Bin, events: seq<Event>) {
    assembling ==>
      && events != [] && events[0].Start? && Complete(events[0].q)
      && accepted == Assembled(Parts(events[1..]), 0) && next == Expecting(Parts(events[1..]), 0)
      && crc == events[0].q.crc.value && Meta(b) == Meta(Described(events[0].q, events[0].memory))
  }

  ghost predicate Tracks(cmds: Commands, events: seq<Event>)
    reads cmds, cmds.bm
  {
    Tracking(cmds.assembling, cmds.accepted, cmds.partIndexExpected, cmds.binCrcReceived, cmds.bm.buffer.bin, events)
  }

  lemma TrackingMore(assembling: bool, accepted: seq<byte>, next: nat, crc: nat, b: Bin, events: seq<Event>, e: Event)
    requires Tracking(assembling, accepted, next, crc, b, events)
    ensures !e.Data? ==> Tracking(assembling, accepted, next, crc, b, events + [e])
    ensures e.Data? && !Acceptable(e.p, next) ==> Tracking(assembling, accepted, next, crc, b, events + [e])
    ensures e.Data? && Acceptable(e.p, next) ==>
              Tracking(assembling, accepted + e.p.data.value.value, Next(next), crc, b, events + [e])
  {
    hide Acceptable, Described, Assembled, Expecting, Meta, Next;
    if assembling {
      assert (events + [e])[1..] == events[1..] + [e];
      PartsMore(events[1..], e);
      if e.Data? {
        AssembledMore(Parts(events[1..]), e.p, 0);
      }
      assert accepted + [] == accepted;
    }
  }

  lemma PartsMore(events: seq<Event>, e: Event)
    ensures Parts(events + [e]) == if e.Data? then Parts(events) + [e.p] else Parts(events)
  {
    assert (events + [e])[..|events|] == events;
  }

  lemma TrackingStarts(q: StartRequest, memory: Bin)
    requires Complete(q)
    ensures Tracking(true, [], 0, q.crc.value, WithState(Described(q, memory), ERASING), [Start(q, memory)])
  {
    hide Described, Meta, WithState;
    WithStateMeta(Described(q, memory), ERASING);
    assert [Start(q, memory)][1..] == [];
  }

  /** An upload in progress is of the events so far, if the whole of it is of the
      declared size and has the declared checksum. */
  lemma TrackingUpload(accepted: seq<byte>, next: nat, crc: nat, b: Bin, events: seq<Event>)
    requires Tracking(true, accepted, next, crc, b, events) && XorAll(accepted) == crc && |accepted| <= Size(b)
    ensures Upload(events, Origin(Meta(b), accepted + Blank(Size(b) - |accepted|)))
  {
    hide Described, Assembled, Expecting, Le32, XorAll;
    DescribedSays(events[0].q, events[0].memory);
    SameMeta(b, Described(events[0].q, events[0].memory));
  }

  // ---- events --------------------------------------------------------------------

  /** Does this step publish a backup of the firmware, and which? */
  predicate Publishes(y: Sys, e: Event, internal: seq<byte>, p: Origin) {
    && e.Round? && y.r.backup.busy && y.r.backupIndex == y.r.backupCounter && Size(y.r.firmware.bin) <= |internal|
    && p == Origin(Meta(y.r.firmware.bin), internal[..Size(y.r.firmware.bin)])
  }

  /** Was the event exactly its step? And if it was in order, has it kept everything,
      and so would power failing at any point of it? A backup that it publishes is
      the firmware, as described, or the upload in progress. */
  twostate predicate Performed(cmds: Commands, e: Event, since: seq<Event>, now: seq<Event>)
    requires old(cmds.Ready()) && Room(e, old(cmds.Now()))
    reads cmds, cmds.conf, cmds.bm, cmds.bm.extmem.extflash
  {
    && cmds.Ready() && cmds.Stepped(old(cmds.bm.Chip()), After(old(cmds.Now()), e, cmds.bm.internal))
    && (old(InOrder(cmds, e, since)) ==>
          && cmds.Valid() && Weathered(old(cmds.bm.Chip()), cmds.bm.Chip(), old(cmds.bm.origin), cmds.bm.origin)
          && Tracks(cmds, now) && (now == since + [e] || now == [e])
          && (cmds.bm.origin == old(cmds.bm.origin) || Upload(since, cmds.bm.origin) ||
              Publishes(old(cmds.Now()), e, cmds.bm.internal, cmds.bm.origin)))
  }

  /** Any event that there is room for. */
  method Perform(cmds: Commands, e: Event, ghost since: seq<Event>) returns (ghost now: seq<Event>)
    requires cmds.Ready() && Room(e, cmds.Now())
    modifies cmds, cmds.conf, cmds.bm, cmds.bm.extmem.extflash, cmds.bm.extmem.scratch
    ensures Performed(cmds, e, since, now)
  {
    hide Performed, Room;
    match e
    case Round(_) => now := Proceed(cmds, e, since);
    case BackUp(_) => now := Proceed(cmds, e, since);
    case CancelBackup => now := Proceed(cmds, e, since);
    case _ => now := Obey(cmds, e, since);
  }

  /** The background work, and the backup of the firmware. */
  method Proceed(cmds: Commands, e: Event, ghost since: seq<Event>) returns (ghost now: seq<Event>)
    requires cmds.Ready() && Room(e, cmds.Now()) && (e.Round? || e.BackUp? || e.CancelBackup?)
    modifies cmds, cmds.conf, cmds.bm, cmds.bm.extmem.extflash, cmds.bm.extmem.scratch
    ensures Performed(cmds, e, since, now)
  {
    hide Weathered, Good, Saving, Settled, Did, Stored, Le32, XorAll, EraseProgress, Meta, WithState, Synced, Yielded, Assembly,
      Upload, Described, Acceptable, Parts, Assembled, Expecting, Planned, Played, PlanOps, TickStep, StartStep, DataStep, UpdateStep,
      BackupStep, CancelStep, StopStep, EndStep;
    ghost var s, o, y, ordered := cmds.bm.Chip(), cmds.bm.origin, cmds.Now(), InOrder(cmds, e, since);
    if ordered {
      TrackingMore(cmds.assembling, cmds.accepted, cmds.partIndexExpected, cmds.binCrcReceived, cmds.bm.buffer.bin, since, e);
    }
    now := since + [e];
    match e
    case Round(fault) =>
      ghost var r := cmds.bm.Memory();
      if ordered {
        YieldDescribes(r, cmds.bm.Disk(), cmds.bm.internal, fault);
      }
      var rc := cmds.Yield(fault);
      if ordered {
        WeatheredEither(s, cmds.bm.Chip(), cmds.bm.origin, o);
      }
    case BackUp(check) =>
      var rc := cmds.BackupStart(check);
      assert cmds.bm.Memory().buffer == old(cmds.bm.Memory()).buffer;
    case CancelBackup =>
      cmds.BackupStop();
  }

  /** The commands of an upload and an update. */
  method Obey(cmds: Commands, e: Event, ghost since: seq<Event>) returns (ghost now: seq<Event>)
    requires cmds.Ready() && Room(e, cmds.Now()) && !e.Round? && !e.BackUp? && !e.CancelBackup?
    modifies cmds, cmds.conf, cmds.bm, cmds.bm.extmem.extflash, cmds.bm.extmem.scratch
    ensures Performed(cmds, e, since, now)
  {
    hide Weathered, Good, Saving, Settled, Did, Stored, Le32, XorAll, EraseProgress, Meta, WithState, Synced, Yielded, Assembly,
      Upload, Described, Acceptable, Parts, Assembled, Expecting, Planned, Played, PlanOps, TickStep, StartStep, DataStep, UpdateStep,
      BackupStep, CancelStep, StopStep, EndStep;
    ghost var b, y, ordered := cmds.bm.buffer.bin, cmds.Now(), InOrder(cmds, e, since);
    if ordered {
      TrackingMore(cmds.assembling, cmds.accepted, cmds.partIndexExpected, cmds.binCrcReceived, b, since, e);
    }
    now := since + [e];
    match e
    case Start(q, memory) =>
      var reply := cmds.UploadStart(q, memory);
      if reply.Done? {
        now := [e];
        TrackingStarts(q, memory);
      }
    case Data(p) =>
      WithStateMeta(b, INVALID);
      if ordered {
        OrderlyData(cmds, p);
      }
      var reply := cmds.UploadData(p);
    case End =>
      WithStateMeta(b, VALID);
      WithStateMeta(b, INVALID);
      var reply := cmds.UploadEnd();
    case TimeOut =>
      WithStateMeta(b, INVALID);
      cmds.Stop(true);
    case Update(component, autobackup) =>
      var reply := cmds.UpdateStart(component, autobackup);
      if ordered && reply.Done? {
        TrackingUpload(cmds.accepted, cmds.partIndexExpected, cmds.binCrcReceived, b, since);
      }
  }

  /** Is everything in order, and the next event too? */
  ghost predicate InOrder(cmds: Commands, e: Event, since: seq<Event>)
    reads cmds, cmds.bm, cmds.conf, cmds.bm.extmem.extflash
  {
    cmds.Valid() && Allowed(e, cmds.bm.Memory(), cmds.partIndexExpected) && Tracks(cmds, since)
  }

  /** An acceptable part that is in order is one that is expected. */
  lemma OrderlyData(cmds: Commands, p: Part)
    requires cmds.Valid() && Allowed(Data(p), cmds.bm.Memory(), cmds.partIndexExpected)
    ensures Acceptable(p, cmds.partIndexExpected) ==> cmds.Expected(|p.data.value.value|)
  {
    hide Acceptable, Good, Stored, Le32;
  }

  /** Events that are in order can be carried out. */
  lemma OrderlyRoom(cmds: Commands, e: Event)
    requires cmds.Valid() && Allowed(e, cmds.bm.Memory(), cmds.partIndexExpected)
    ensures cmds.Ready() && Room(e, cmds.Now())
  {
    hide Acceptable, Good, Stored, Le32;
    ProgressBounds(cmds.bm.Memory(), cmds.bm.Disk());
    ProgressBounded(cmds.bm.Memory(), cmds.bm.Disk(), cmds.bm.internal);
  }

  lemma ValidReady(cmds: Commands)
    requires cmds.Valid()
    ensures cmds.Ready() && EraseRoom(cmds.bm.Memory())
  {
    hide Good, Stored, Le32;
    ProgressBounds(cmds.bm.Memory(), cmds.bm.Disk());
    ProgressBounded(cmds.bm.Memory(), cmds.bm.Disk(), cmds.bm.internal);
  }

  // ---- start-up ------------------------------------------------------------------

  /** What the backup is a copy of after start-up: finishing an erasure costs its
      first subsector. */
  function Opened(image: Image, o: Origin): Origin {
    if Interrupted(image) then Blanked(o) else o
  }

  /** Did power fail during an erasure? */
  predicate Interrupted(image: Image) {
    Sound(image) && State(Stored(Contents(image), Buffer)) == ERASING
  }

  /** Start-up from whatever power has left, and what power leaves that fails `k`
      operations into it. */
  method Boot(image: Image, internal: seq<byte>, ghost o: Origin, k: nat) returns (cmds: Commands, left: Image)
    requires Sound(image) && |internal| == FIRMWARE_SIZE
    ensures fresh(cmds) && fresh(cmds.conf) && fresh(cmds.bm) && fresh(cmds.bm.extmem.extflash) && fresh(cmds.bm.extmem.scratch)
    ensures cmds.Ready() && cmds.bm.internal == internal && !cmds.assembling
    ensures cmds.Now() == BootSys(image) && cmds.bm.extmem.extflash.mem == BootImage(image) && left == BootLeft(image, k)
    ensures Good(Contents(image), o) ==>
              && cmds.Valid() && cmds.bm.origin == Opened(image, o)
              && Sound(left) && GoodEither(Contents(left), o, Opened(image, o))
  {
    hide Weathered, Good, Settled, Did, Stored, Le32, Contents, Sound, RecoverOps, Run, RunTo, AllFixed, Restored, Clean, Planned,
      PlanOps, Played, BootActs, BootRam, Atomic, SavingConfig, Configured, ConfigActs, ConfigOf;
    var chip := new SpiFlash(image);
    ghost var s := chip.State();
    var e := new ExtMem.Init(chip);
    ghost var t := chip.State();
    RecoverKeeps(image, |RecoverOps(image)|);
    RunEnds(image, RecoverOps(image));
    DidIs(s, RecoverOps(image), t);
    CleanSettled(chip.mem, Contents(image));
    var conf := new Configurator.Init(e);
    ghost var u, v := chip.State(), Found(image);
    PlannedDisk(t, ConfigActs(ConfigOf(v)), u);
    if Good(v, o) {
      ConfiguringGood(v, o);
      GoodThroughout(t, u, o);
    }
    var bm := new BinManager.Init(e, internal, o);
    ghost var x := chip.State();
    RestoredConfig(Played(v, ConfigActs(ConfigOf(v))));
    BootBounded(bm.Memory(), Played(v, ConfigActs(ConfigOf(v))), internal);
    cmds := new Commands.Init(bm, conf);
    PlannedBoth(t, ConfigActs(ConfigOf(v)), u, BootActs(Played(v, ConfigActs(ConfigOf(v)))), x);
    PlannedDisk(t, StartActs(v), x);
    Booted(s, t, x);
    left := RunTo(image, chip.ops, Min(k, |chip.ops|));
    if Good(v, o) {
      WeatheredEither(t, u, o, bm.origin);
      WeatheredBoth(t, u, x, o, bm.origin);
      BootCut(s, t, x, o, bm.origin);
      CutSound(s, x, o, bm.origin, k);
    }
  }

  lemma BootBounded(r: Ram, v: Disk, internal: seq<byte>)
    requires r == BootRam(v) && |internal| == FIRMWARE_SIZE
    ensures Bounded(r, internal)
  {
    hide Stored, Fixed;
  }

  /** The log of start-up is that of recovery and of the plan. */
  lemma Booted(s: Chip, t: Chip, u: Chip)
    requires s.ops == [] && Sound(s.mem) && Did(s, RecoverOps(s.mem), t) && Planned(t, StartActs(Found(s.mem)), u)
    ensures u.ops == BootOps(s.mem) && u.mem == Run(s.mem, BootOps(s.mem))
  {
    hide Run, RecoverOps, PlanOps, StartActs;
    DidIs(s, RecoverOps(s.mem), t);
    RunConcat(s.mem, RecoverOps(s.mem), PlanOps(t.mem, StartActs(Found(s.mem))));
  }

  /** Wherever power fails between `s` and `t`, the chip stands for contents that
      keep both promises. Unlike a weathered stretch, this one may begin with a
      transaction still to be replayed. */
  predicate Survives(s: Chip, t: Chip, o: Origin, p: Origin) {
    && Follows(s, t)
    && forall k | 0 <= k <= |Since(s, t)| :: Sound(CutAt(s, t, k)) && GoodEither(Contents(CutAt(s, t, k)), o, p)
  }

  lemma WeatheredSurvives(s: Chip, t: Chip, o: Origin, p: Origin)
    requires Weathered(s, t, o, p)
    ensures Survives(s, t, o, p) && |s.ops| <= |t.ops|
  {
    hide Good, Contents, RunTo, Run, Sound, Did;
  }

  /** Recovery, and then a weathered stretch. */
  lemma BootCut(s: Chip, t: Chip, u: Chip, o: Origin, p: Origin)
    requires Sound(s.mem) && Good(Contents(s.mem), o) && Did(s, RecoverOps(s.mem), t) && Weathered(t, u, o, p)
    ensures Survives(s, u, o, p)
  {
    hide Good, Contents, RunTo, Run, Sound, RecoverOps, Did;
    var a, b := RecoverOps(s.mem), Since(t, u);
    DidBoth(s, a, t, b, u);
    DidFollows(s, a + b, u);
    DidIs(s, a, t);
    forall k | 0 <= k <= |Since(s, u)|
      ensures Sound(CutAt(s, u, k)) && GoodEither(Contents(CutAt(s, u, k)), o, p)
    {
      RunCut(s.mem, a, b, k);
      if k <= |a| {
        RecoverKeeps(s.mem, k);
      } else {
        assert CutAt(s, u, k) == CutAt(t, u, k - |a|);
      }
    }
  }

  /** The chip that a power cut leaves, as seen by whoever looks at its log. */
  lemma CutSound(s: Chip, t: Chip, o: Origin, p: Origin, k: nat)
    requires Survives(s, t, o, p)
    ensures var g := RunTo(s.mem, t.ops[|s.ops|..], Min(k, |t.ops| - |s.ops|));
            Sound(g) && GoodEither(Contents(g), o, p)
  {
    hide Good, Contents, RunTo, Run, Sound, Did;
    var n := Min(k, |t.ops| - |s.ops|);
    assert RunTo(s.mem, t.ops[|s.ops|..], n) == CutAt(s, t, n);
  }

  // ---- what a backup can be -------------------------------------------------------

  /** Was this uploaded by some of these events? */
  predicate Uploaded(events: seq<Event>, p: Origin) {
    exists i, n | 0 <= i < n <= |events| :: Upload(events[i..n], p)
  }

  /** Is this the firmware, with its description, as one of these events found it? */
  predicate BackedUp(image: Image, internal: seq<byte>, events: seq<Event>, p: Origin) {
    exists n | 0 <= n < |events| :: Publishes(SysAfter(image, internal, events[..n]), events[n], internal, p)
  }

  /** Did this life bring it about? */
  predicate Made(image: Image, internal: seq<byte>, events: seq<Event>, p: Origin) {
    BackedUp(image, internal, events, p) || Uploaded(events, p)
  }

  /** What a backup can be after a life of these events: what it was, and if the
      life began with an erasure cut short, what finishing that left of it; or what
      it made. */
  predicate Genuine(p: Origin, o: Origin, image: Image, internal: seq<byte>, events: seq<Event>) {
    p == o || p == Opened(image, o) || Made(image, internal, events, p)
  }

  lemma GenuineStart(o: Origin, image: Image, internal: seq<byte>, events: seq<Event>)
    ensures Genuine(o, o, image, internal, events) && Genuine(Opened(image, o), o, image, internal, events)
  {
    hide Made, Opened;
  }

  lemma GenuineMore(p: Origin, q: Origin, o: Origin, image: Image, internal: seq<byte>, events: seq<Event>, n: nat)
    requires n < |events| && Genuine(q, o, image, internal, events[..n])
    requires p == q || Uploaded(events[..n], p) || Publishes(SysAfter(image, internal, events[..n]), events[n], internal, p)
    ensures Genuine(p, o, image, internal, events[..n + 1])
  {
    hide SysAfter, Publishes, Opened, Uploaded, BackedUp;
    if Uploaded(events[..n], p) {
      UploadedMore(p, events, n);
    } else if BackedUp(image, internal, events[..n], p) || Publishes(SysAfter(image, internal, events[..n]), events[n], internal, p) {
      BackedUpMore(p, image, internal, events, n);
    }
  }

  lemma BackedUpMore(p: Origin, image: Image, internal: seq<byte>, events: seq<Event>, n: nat)
    requires n < |events|
    requires BackedUp(image, internal, events[..n], p) || Publishes(SysAfter(image, internal, events[..n]), events[n], internal, p)
    ensures BackedUp(image, internal, events[..n + 1], p)
  {
    hide SysAfter, Publishes;
    var front, more := events[..n], events[..n + 1];
    if BackedUp(image, internal, front, p) {
      var m :| 0 <= m < |front| && Publishes(SysAfter(image, internal, front[..m]), front[m], internal, p);
      assert more[..n] == front && more[m] == front[m];
      assert more[..m] == more[..n][..m];
    } else {
      assert more[..n] == front && more[n] == events[n];
    }
  }

  lemma UploadedMore(p: Origin, events: seq<Event>, n: nat)
    requires n < |events| && Uploaded(events[..n], p)
    ensures Uploaded(events[..n + 1], p)
  {
    hide Upload;
    var front, more := events[..n], events[..n + 1];
    var i, m :| 0 <= i < m <= |front| && Upload(front[i..m], p);
    assert forall j | 0 <= j < n :: more[j] == front[j];
    assert more[i..m] == front[i..m];
  }

  /** One life of the device: start-up, any events up to the first that is out of
      order, and power failing `k` operations into the last of them (or into the
      start-up if there are none). It leaves exactly what the machine leaves, which
      keeps both promises, with a genuine backup. */
  method Live(image: Image, internal: seq<byte>, ghost o: Origin, events: seq<Event>, k: nat) returns (left: Image, ghost p: Origin)
    requires Sound(image) && Good(Contents(image), o) && |internal| == FIRMWARE_SIZE
    ensures left == LeftBy(image, internal, Leading(image, internal, events), k)
    ensures Sound(left) && Good(Contents(left), p) && Genuine(p, o, image, internal, Leading(image, internal, events))
  {
    hide Weathered, Good, Settled, Did, Stored, Le32, Contents, Sound, Run, RunTo, Upload, Tracking, Planned, PlanOps, Played, After,
      Room, Allowed, BootImage, BootLeft, BootSys, Publishes, Blanked, Bounded, SysAfter, ImageAfter, LeftBy, Leading, Opened, Genuine;
    var cmds;
    cmds, left := Boot(image, internal, o, k);
    p := if Good(Contents(left), o) then o else Opened(image, o);
    GenuineStart(o, image, internal, events[..0]);
    ghost var i := 0;
    TrackingNothing(cmds);
    NoEvents(image, internal, events[..0], k);
    for n := 0 to |events|
      invariant cmds.Valid() && cmds.bm.internal == internal
      invariant fresh(cmds) && fresh(cmds.conf) && fresh(cmds.bm) && fresh(cmds.bm.extmem.extflash) && fresh(cmds.bm.extmem.scratch)
      invariant Sound(left) && Good(Contents(left), p)
      invariant Genuine(p, o, image, internal, events[..n]) && Genuine(cmds.bm.origin, o, image, internal, events[..n])
      invariant i <= n && Tracks(cmds, events[i..n]) && Leading(image, internal, events[..n]) == events[..n]
      invariant cmds.Now() == SysAfter(image, internal, events[..n])
      invariant cmds.bm.extmem.extflash.mem == ImageAfter(image, internal, events[..n])
      invariant left == LeftBy(image, internal, events[..n], k)
    {
      if !Allowed(events[n], cmds.bm.Memory(), cmds.partIndexExpected) {
        LeadingStops(image, internal, events, n);
        return;
      }
      OrderlyRoom(cmds, events[n]);
      var chip := cmds.bm.extmem.extflash;
      var was, from := chip.mem, |chip.ops|;
      ghost var s, q, y := chip.State(), cmds.bm.origin, cmds.Now();
      ghost var now := Perform(cmds, events[n], events[i..n]);
      WeatheredSurvives(s, chip.State(), q, cmds.bm.origin);
      left := RunTo(was, chip.ops[from..], Min(k, |chip.ops| - from));
      CutSound(s, chip.State(), q, cmds.bm.origin, k);
      LeadingMore(image, internal, events, n);
      OneMoreEvent(image, internal, events, n, s, chip.State(), k);
      p := if Good(Contents(left), q) then q else cmds.bm.origin;
      Stretch(events, i, n, cmds.bm.origin);
      GenuineMore(q, q, o, image, internal, events, n);
      GenuineMore(cmds.bm.origin, q, o, image, internal, events, n);
      if now == [events[n]] {
        i := n;
      }
    }
    assert events[..|events|] == events;
  }

  lemma NoEvents(image: Image, internal: seq<byte>, events: seq<Event>, k: nat)
    requires events == []
    ensures Leading(image, internal, events) == events && SysAfter(image, internal, events) == BootSys(image)
    ensures ImageAfter(image, internal, events) == BootImage(image) && LeftBy(image, internal, events, k) == BootLeft(image, k)
  {
    hide BootImage, BootLeft, BootSys;
  }

  /** The machine after one more event, from what the chip has done. */
  lemma OneMoreEvent(image: Image, internal: seq<byte>, events: seq<Event>, n: nat, s: Chip, t: Chip, k: nat)
    requires n < |events| && s.mem == ImageAfter(image, internal, events[..n])
    requires Planned(s, Making(SysAfter(image, internal, events[..n]), events[n], internal).acts, t)
    ensures SysAfter(image, internal, events[..n + 1]) == Making(SysAfter(image, internal, events[..n]), events[n], internal).to
    ensures t.mem == ImageAfter(image, internal, events[..n + 1]) && |s.ops| <= |t.ops|
    ensures RunTo(s.mem, t.ops[|s.ops|..], Min(k, |t.ops| - |s.ops|)) == LeftBy(image, internal, events[..n + 1], k)
  {
    hide Run, RunTo, PlanOps, Making, BootOps;
    assert events[..n + 1][..n] == events[..n] && events[..n + 1][n] == events[n];
    assert t.ops[|s.ops|..] == PlanOps(s.mem, Making(SysAfter(image, internal, events[..n]), events[n], internal).acts);
  }

  lemma LeadingMore(image: Image, internal: seq<byte>, events: seq<Event>, n: nat)
    requires n < |events| && Leading(image, internal, events[..n]) == events[..n]
    requires var y := SysAfter(image, internal, events[..n]); Allowed(events[n], y.r, y.next)
    ensures Leading(image, internal, events[..n + 1]) == events[..n + 1]
  {
    hide SysAfter, Allowed;
    assert events[..n + 1][..n] == events[..n] && events[..n + 1][n] == events[n];
  }

  lemma TrackingNothing(cmds: Commands)
    requires !cmds.assembling
    ensures Tracks(cmds, [])
  {
  }

  /** The events since the one an upload began with. */
  lemma Stretch(events: seq<Event>, i: nat, n: nat, p: Origin)
    requires i <= n < |events|
    ensures events[i..n + 1] == events[i..n] + [events[n]] && events[n..n + 1] == [events[n]]
    ensures Upload(events[i..n], p) ==> Uploaded(events[..n], p)
  {
    hide Upload;
    assert i == n ==> events[i..n] == [];
    assert events[..n][i..n] == events[i..n];
    NothingUploaded(p);
  }

  lemma NothingUploaded(p: Origin)
    ensures !Upload([], p)
  {
  }

  /** What a backup can be after the first `n` of several lives: what it was, or
      what one of them made, or what is left of that if a later life began with an
      erasure cut short. */
  ghost predicate GenuineIn(p: Origin, o: Origin, image: Image, internal: seq<byte>, lives: seq<Life>, n: nat)
    requires n <= |lives|
  {
    || Remains(p, o, image, internal, lives, 0, n)
    || exists i, q | 0 <= i < n :: MadeIn(q, image, internal, lives, i) && Remains(p, q, image, internal, lives, i + 1, n)
  }

  /** What is left of a backup over some lives. */
  predicate Remains(p: Origin, q: Origin, image: Image, internal: seq<byte>, lives: seq<Life>, from: nat, to: nat)
    requires to <= |lives|
  {
    p == q || (p == Blanked(q) && exists j | from <= j < to :: BeginsInterrupted(image, internal, lives, j))
  }

  predicate BeginsInterrupted(image: Image, internal: seq<byte>, lives: seq<Life>, j: nat)
    requires j < |lives|
  {
    Interrupted(Lived(true, image, internal, lives[..j]))
  }

  predicate MadeIn(q: Origin, image: Image, internal: seq<byte>, lives: seq<Life>, i: nat)
    requires i < |lives|
  {
    var f := Lived(true, image, internal, lives[..i]);
    Made(f, internal, Leading(f, internal, lives[i].events), q)
  }

  /** One life after another, wherever each is cut: the flash is left exactly as the
      machine leaves it, keeps both promises, and a backup that is marked valid is
      genuine. */
  method Lives(image: Image, internal: seq<byte>, ghost o: Origin, lives: seq<Life>) returns (left: Image, ghost p: Origin)
    requires Sound(image) && Good(Contents(image), o) && |internal| == FIRMWARE_SIZE
    ensures left == Lived(true, image, internal, lives)
    ensures Sound(left) && Good(Contents(left), p) && GenuineIn(p, o, image, internal, lives, |lives|)
  {
    hide Good, Stored, Contents, Sound, Made, Blanked, LeftBy, Leading;
    left, p := image, o;
    assert lives[..0] == [];
    for i := 0 to |lives|
      invariant left == Lived(true, image, internal, lives[..i])
      invariant Sound(left) && Good(Contents(left), p) && GenuineIn(p, o, image, internal, lives, i)
    {
      ghost var q, f := p, left;
      left, p := Live(left, internal, p, lives[i].events, lives[i].k);
      assert lives[..i + 1][..i] == lives[..i] && lives[..i + 1][i] == lives[i];
      StillGenuine(p, q, o, image, internal, lives, i);
    }
    assert lives[..|lives|] == lives;
  }

  /** One life more. */
  lemma StillGenuine(p: Origin, q: Origin, o: Origin, image: Image, internal: seq<byte>, lives: seq<Life>, i: nat)
    requires i < |lives| && GenuineIn(q, o, image, internal, lives, i)
    requires var f := Lived(true, image, internal, lives[..i]); Genuine(p, q, f, internal, Leading(f, internal, lives[i].events))
    ensures GenuineIn(p, o, image, internal, lives, i + 1)
  {
    hide Made, Lived, Blanked, Interrupted, Remains;
    if MadeIn(p, image, internal, lives, i) {
      RemainsItself(p, image, internal, lives, i + 1);
    } else if Remains(q, o, image, internal, lives, 0, i) {
      RemainsMore(p, q, o, image, internal, lives, 0, i);
    } else {
      var j, g :| 0 <= j < i && MadeIn(g, image, internal, lives, j) && Remains(q, g, image, internal, lives, j + 1, i);
      RemainsMore(p, q, g, image, internal, lives, j + 1, i);
    }
  }

  lemma RemainsItself(p: Origin, image: Image, internal: seq<byte>, lives: seq<Life>, n: nat)
    requires n <= |lives|
    ensures Remains(p, p, image, internal, lives, n, n)
  {
  }

  lemma RemainsMore(p: Origin, q: Origin, g: Origin, image: Image, internal: seq<byte>, lives: seq<Life>, from: nat, i: nat)
    requires from <= i < |lives| && Remains(q, g, image, internal, lives, from, i)
    requires p == q || p == Opened(Lived(true, image, internal, lives[..i]), q)
    ensures Remains(p, g, image, internal, lives, from, i + 1)
  {
    hide Lived, Blanked, Interrupted;
    RemainsBlanked(g);
    if p != q {
      assert BeginsInterrupted(image, internal, lives, i);
    }
  }

  /** Losing the first subsector again loses nothing. */
  lemma RemainsBlanked(o: Origin)
    ensures Blanked(Blanked(o)) == Blanked(o)
  {
  }

  /** With no power cut during an erasure, a backup is what it was or what one of
      the lives made. */
  lemma NothingLost(p: Origin, o: Origin, image: Image, internal: seq<byte>, lives: seq<Life>)
    requires GenuineIn(p, o, image, internal, lives, |lives|)
    requires forall j | 0 <= j < |lives| :: !BeginsInterrupted(image, internal, lives, j)
    ensures p == o || exists i | 0 <= i < |lives| :: MadeIn(p, image, internal, lives, i)
  {
    hide MadeIn, Blanked, BeginsInterrupted;
  }

  // ---- lives that are not in order ---------------------------------------------------

  /** One life of the device with any events, in order or not, that there is room
      for, from any flash that recovery can make sense of: it leaves exactly what the
      machine leaves, and if power does not fail the device is in exactly the state
      of the machine. */
  method LiveAnyhow(image: Image, internal: seq<byte>, events: seq<Event>, k: nat) returns (left: Image, cmds: Commands)
    requires Sound(image) && |internal| == FIRMWARE_SIZE && Roomy(image, internal, events)
    ensures left == LeftBy(image, internal, events, k)
    ensures fresh(cmds) && fresh(cmds.conf) && fresh(cmds.bm) && fresh(cmds.bm.extmem.extflash) && fresh(cmds.bm.extmem.scratch)
    ensures cmds.Ready() && cmds.Now() == SysAfter(image, internal, events)
    ensures cmds.bm.extmem.extflash.mem == ImageAfter(image, internal, events)
  {
    hide Settled, Did, Stored, Contents, Sound, Run, RunTo, Planned, PlanOps, Played, After, Room, BootImage, BootLeft, BootSys, Bounded, SysAfter,
      ImageAfter, LeftBy, Weathered, Good, Roomy;
    ghost var o := Origin([], []);
    cmds, left := Boot(image, internal, o, k);
    NoEvents(image, internal, events[..0], k);
    for n := 0 to |events|
      invariant cmds.Ready() && cmds.bm.internal == internal
      invariant fresh(cmds) && fresh(cmds.conf) && fresh(cmds.bm) && fresh(cmds.bm.extmem.extflash) && fresh(cmds.bm.extmem.scratch)
      invariant cmds.Now() == SysAfter(image, internal, events[..n])
      invariant cmds.bm.extmem.extflash.mem == ImageAfter(image, internal, events[..n])
      invariant left == LeftBy(image, internal, events[..n], k)
    {
      var chip := cmds.bm.extmem.extflash;
      var was, from := chip.mem, |chip.ops|;
      ghost var s := chip.State();
      RoomyFront(image, internal, events, n);
      ghost var now := Perform(cmds, events[n], []);
      OneMoreEvent(image, internal, events, n, s, chip.State(), k);
      left := RunTo(was, chip.ops[from..], Min(k, |chip.ops| - from));
    }
    assert events[..|events|] == events;
  }

  /** Any lives, each cut anywhere. While less than 4 MiB are declared and there is
      room for every event, no update is ever scheduled from a buffer being erased,
      or erased. */
  method LivesAnyhow(image: Image, internal: seq<byte>, lives: seq<Life>) returns (left: Image)
    requires Sound(image) && FlagSafe(Contents(image)) && |internal| == FIRMWARE_SIZE
    requires AllDeclaring(lives, LIMIT) && AllRoomy(image, internal, lives)
    ensures left == Lived(false, image, internal, lives) && Sound(left) && FlagSafe(Contents(left))
  {
    hide Contents, Sound, FlagSafe, LeftBy, Leading, AllDeclaring, Roomy;
    left := image;
    assert lives[..0] == [];
    for i := 0 to |lives|
      invariant left == Lived(false, image, internal, lives[..i]) && Sound(left)
    {
      FirstDeclaring(lives, i + 1);
      AllRoomyFront(image, internal, lives, i + 1);
      FlagLived(image, internal, lives[..i + 1]);
      assert lives[..i + 1][..i] == lives[..i] && lives[..i + 1][i] == lives[i];
      var cmds;
      left, cmds := LiveAnyhow(left, internal, lives[i].events, lives[i].k);
    }
    assert lives[..|lives|] == lives;
    FlagLived(image, internal, lives);
  }

  lemma FirstDeclaring(lives: seq<Life>, n: nat)
    requires n <= |lives| && AllDeclaring(lives, LIMIT)
    ensures AllDeclaring(lives[..n], LIMIT)
  {
    hide Declaring;
  }

  /** A life that declares one byte and sends as many as the chip holds, in parts of
      the usual size: from any flash whose second journal block is blank it leaves an
      update scheduled from a buffer that is being erased. */
  method RunOver(image: Image, internal: seq<byte>) returns (left: Image)
    requires Sound(image) && |internal| == FIRMWARE_SIZE && Spared(image)
    ensures Sound(left) && State(Stored(Contents(left), Buffer)) == ERASING && !FlagSafe(Contents(left)) && !UpdateSafe(Contents(left))
  {
    hide Settled, Did, Stored, Contents, Sound, Masked, PartOps, PartOf, Tail, Before, Acceptable, UpdateSafe, FlagSafe, SysAfter, ImageAfter,
      Emptied, Spared, Bounded, Le32, Run, RunTo, LeftBy, Roomy, Declaring;
    BeforeRuns(image, internal);
    var cmds;
    left, cmds := LiveAnyhow(image, internal, Before(), 0);
    ghost var f := cmds.bm.extmem.extflash.mem;
    NothingMore(f);
    for i := 0 to (SIZE - INDEX) / DECODED
      invariant fresh(cmds) && fresh(cmds.bm) && fresh(cmds.bm.extmem.extflash) && fresh(cmds.bm.extmem.scratch)
      invariant Sending(cmds, f, i)
    {
      SendOn(cmds, f, i);
    }
    left := cmds.bm.extmem.extflash.mem;
    assert Tail()[..SIZE - INDEX] == Tail();
    TailPublishes(f);
    LosingUnsafe(Contents(left));
  }

  /** `i` parts have been sent beyond the index of the chip `f`. */
  ghost predicate Sending(cmds: Commands, f: Image, i: nat)
    requires INDEX + i * DECODED <= SIZE
    reads cmds, cmds.bm, cmds.conf, cmds.bm.extmem.extflash
  {
    && cmds.Receptive() && State(cmds.bm.buffer.bin) == INVALID
    && cmds.bm.written == INDEX + i * DECODED && cmds.partIndexExpected == PARTS + i
    && cmds.bm.extmem.extflash.mem == Masked(f, INDEX, Tail()[..i * DECODED])
  }

  method SendOn(cmds: Commands, ghost f: Image, i: nat)
    requires INDEX + i * DECODED + DECODED <= SIZE && Sending(cmds, f, i)
    modifies cmds, cmds.bm, cmds.bm.extmem.extflash, cmds.bm.extmem.scratch
    ensures Sending(cmds, f, i + 1)
  {
    hide Settled, Did, Stored, Masked, PartOps, PartOf, Tail, Acceptable, Bounded, Le32, WithState, XorOn;
    var x, y := i * DECODED, i * DECODED + DECODED;
    ghost var s, b := cmds.bm.Chip(), cmds.bm.buffer.bin;
    Accepts(PARTS + i, Tail()[x..y]);
    WithStateMeta(b, INVALID);
    var reply := cmds.UploadData(PartOf(PARTS + i, Tail()[x..y]));
    TailMore(f, s, b, x, y, cmds.bm.Chip());
  }

  lemma NothingMore(f: Image)
    ensures Masked(f, INDEX, Tail()[..0]) == f
  {
    hide Tail;
    MaskedNothing(f, INDEX);
  }
}
