/** The system as a machine: what each event makes of it, what start-up makes of
    what it finds, and what a power cut leaves. */
module Machine {
  import opened Bytes
  import opened Options
  import opened NorFlash
  import opened Streams
  import opened Journal
  import opened ExternalMemory
  import opened Binaries
  import opened Plans
  import opened BinaryManager
  import opened MqttCommands

  datatype Event =
    | Round(fault: Fault) | BackUp(checkBuildId: bool) | CancelBackup
    | Start(q: StartRequest, memory: Bin) | Data(p: Part) | End | TimeOut
    | Update(component: Option<Option<Target>>, autobackup: u32)

  // ---- steps -----------------------------------------------------------------------

  /** Does what the event asks of the flash stay below the journal? */
  predicate Room(e: Event, y: Sys) {
    match e
    case Round(_) => EraseRoom(y.r)
    case Data(p) => Acceptable(p, y.next) ==> BUFFER + y.r.written + |p.data.value.value| <= INDEX
    case Update(component, autobackup) => Overwrites(y, component, autobackup) ==> UpdateRoom(Size(y.r.buffer.bin))
    case _ => true
  }

  /** The step that an event makes. */
  function After(y: Sys, e: Event, internal: seq<byte>): Step
    requires Bounded(y.r, internal) && Room(e, y)
  {
    match e
    case Round(fault) => TickStep(y, internal, fault)
    case BackUp(check) => BackupStep(y, check)
    case CancelBackup => CancelStep(y)
    case Start(q, memory) => StartStep(y, q, memory)
    case Data(p) => DataStep(y, p)
    case End => EndStep(y)
    case TimeOut => StopStep(y, true)
    case Update(component, autobackup) => UpdateStep(y, component, autobackup)
  }

  /** What the rest of the system does not do: declare more than the partition
      takes, send data before the erasure has finished or beyond the declared
      size, or overwrite the backup while it is being made. */
  predicate Allowed(e: Event, r: Ram, next: nat) {
    match e
    case Start(q, _) => q.size.Some? ==> q.size.value < PARTITION
    case Data(p) => Acceptable(p, next) ==>
      Erased(r) && r.written + |p.data.value.value| <= Min(Size(r.buffer.bin), PARTITION)
    case Update(component, autobackup) => component == Some(Some(ToBackup)) && autobackup == 0 ==>
      !r.backup.busy && Size(r.buffer.bin) < PARTITION
    case _ => true
  }

  /** The step that an event makes. What one does that would erase, copy to or
      write the journal is not described; results about it ask for room. */
  function Making(y: Sys, e: Event, internal: seq<byte>): Step {
    if Bounded(y.r, internal) && Room(e, y) then After(y, e, internal) else Step(y, [])
  }

  // ---- lives ------------------------------------------------------------------------

  /** What recovery does to the chip. A record that no `secure_write` publishes is
      not part of the model. */
  function Recovering(image: Image): seq<Op> {
    if Sound(image) then RecoverOps(image) else []
  }

  /** The flash below the journal once recovery is through. */
  function Found(image: Image): Disk {
    Run(image, Recovering(image))[..INDEX]
  }

  /** What start-up asks of the flash: the configuration is corrected, then the
      descriptions are, and an erasure cut short is finished. */
  function StartActs(v: Disk): seq<Act> {
    var config := ConfigActs(ConfigOf(v));
    config + BootActs(Played(v, config))
  }

  /** The state after start-up. */
  function BootSys(image: Image): Sys {
    var v := Found(image);
    Sys(BootRam(Played(v, ConfigActs(ConfigOf(v)))), Played(v, StartActs(v)), Configured(ConfigOf(v)), 0, 0, 0)
  }

  /** Everything that start-up does to the chip. */
  function BootOps(image: Image): seq<Op> {
    Recovering(image) + PlanOps(Run(image, Recovering(image)), StartActs(Found(image)))
  }

  /** The chip after start-up, and what a power cut `k` operations into it leaves. */
  function BootImage(image: Image): Image {
    Run(image, BootOps(image))
  }

  function BootLeft(image: Image, k: nat): Image {
    var ops := BootOps(image);
    RunTo(image, ops, Min(k, |ops|))
  }

  /** The state after start-up and some events. */
  function SysAfter(image: Image, internal: seq<byte>, events: seq<Event>): Sys {
    if events == [] then BootSys(image)
    else
      var n := |events| - 1;
      Making(SysAfter(image, internal, events[..n]), events[n], internal).to
  }

  /** Is there room for each of these events in the state that it meets? */
  predicate Roomy(image: Image, internal: seq<byte>, events: seq<Event>) {
    forall i | 0 <= i < |events| :: Room(events[i], SysAfter(image, internal, events[..i]))
  }

  lemma RoomyFront(image: Image, internal: seq<byte>, events: seq<Event>, n: nat)
    requires n < |events| && Roomy(image, internal, events)
    ensures Roomy(image, internal, events[..n]) && Room(events[n], SysAfter(image, internal, events[..n]))
  {
    hide SysAfter, Room;
    forall i | 0 <= i < n
      ensures Room(events[..n][i], SysAfter(image, internal, events[..n][..i]))
    {
      assert events[..n][..i] == events[..i];
    }
  }

  lemma RoomyMore(image: Image, internal: seq<byte>, events: seq<Event>, e: Event)
    requires Roomy(image, internal, events) && Room(e, SysAfter(image, internal, events))
    ensures Roomy(image, internal, events + [e])
  {
    hide SysAfter, Room;
    forall i | 0 <= i < |events + [e]|
      ensures Room((events + [e])[i], SysAfter(image, internal, (events + [e])[..i]))
    {
      assert (events + [e])[..i] == events[..i];
      assert events[..|events|] == events;
    }
  }

  /** What the last of some events does to the chip. */
  function LastOps(image: Image, internal: seq<byte>, events: seq<Event>, f: Image): seq<Op>
    requires events != []
  {
    var n := |events| - 1;
    PlanOps(f, Making(SysAfter(image, internal, events[..n]), events[n], internal).acts)
  }

  /** The chip after start-up and some events. */
  function ImageAfter(image: Image, internal: seq<byte>, events: seq<Event>): Image {
    if events == [] then BootImage(image)
    else
      var f := ImageAfter(image, internal, events[..|events| - 1]);
      Run(f, LastOps(image, internal, events, f))
  }

  /** The chip that a life leaves when power fails `k` operations into its last
      event, or into its start-up if there is none. */
  function LeftBy(image: Image, internal: seq<byte>, events: seq<Event>, k: nat): Image {
    if events == [] then BootLeft(image, k)
    else
      var f := ImageAfter(image, internal, events[..|events| - 1]);
      var ops := LastOps(image, internal, events, f);
      RunTo(f, ops, Min(k, |ops|))
  }

  /** The events of a life, and where power fails in the last of them. */
  datatype Life = Life(events: seq<Event>, k: nat)

  /** The events up to the first that is out of order. */
  function Leading(image: Image, internal: seq<byte>, events: seq<Event>): seq<Event> {
    if events == [] then []
    else
      var n := |events| - 1;
      var front := Leading(image, internal, events[..n]);
      var y := SysAfter(image, internal, front);
      if |front| == n && Allowed(events[n], y.r, y.next) then events else front
  }

  lemma {:induction false} LeadingStops(image: Image, internal: seq<byte>, events: seq<Event>, n: nat)
    requires n < |events| && Leading(image, internal, events[..n]) == events[..n]
    requires var y := SysAfter(image, internal, events[..n]); !Allowed(events[n], y.r, y.next)
    ensures Leading(image, internal, events) == events[..n]
  {
    hide SysAfter, Allowed;
    var m := |events| - 1;
    if n < m {
      assert events[..m][..n] == events[..n];
      LeadingStops(image, internal, events[..m], n);
    }
  }

  /** The chip that a series of lives leaves; if the rest of the system is orderly,
      each life only goes on to its first event out of order. */
  function Lived(orderly: bool, image: Image, internal: seq<byte>, lives: seq<Life>): Image {
    if lives == [] then image
    else
      var n := |lives| - 1;
      var f := Lived(orderly, image, internal, lives[..n]);
      LeftBy(f, internal, if orderly then Leading(f, internal, lives[n].events) else lives[n].events, lives[n].k)
  }

  /** And is there in each of several lives? */
  predicate AllRoomy(image: Image, internal: seq<byte>, lives: seq<Life>) {
    forall i | 0 <= i < |lives| :: Roomy(Lived(false, image, internal, lives[..i]), internal, lives[i].events)
  }

  lemma AllRoomyFront(image: Image, internal: seq<byte>, lives: seq<Life>, n: nat)
    requires n <= |lives| && AllRoomy(image, internal, lives)
    ensures AllRoomy(image, internal, lives[..n])
  {
    hide Roomy, Lived;
    forall i | 0 <= i < n
      ensures Roomy(Lived(false, image, internal, lives[..n][..i]), internal, lives[..n][i].events)
    {
      assert lives[..n][..i] == lives[..i];
    }
  }

  // ---- what every step keeps ----------------------------------------------------------

  /** A backup under way stays within the firmware. */
  lemma StepBounded(y: Sys, e: Event, internal: seq<byte>)
    requires Bounded(y.r, internal) && Room(e, y)
    ensures Bounded(After(y, e, internal).to.r, internal)
  {
    hide Played, YieldActs, StartingBackup, UpdateActs, Described, Acceptable, BuildId, Le32, FixedSize, WithState;
    if e.BackUp? {
      FixedSizeIs(y.r.firmware.bin);
    }
  }

  lemma MakingBounded(y: Sys, e: Event, internal: seq<byte>)
    requires Bounded(y.r, internal)
    ensures Bounded(Making(y, e, internal).to.r, internal)
  {
    hide After, Room, Bounded;
    if Bounded(y.r, internal) && Room(e, y) {
      StepBounded(y, e, internal);
    }
  }

  /** Whatever happens, of the configuration that start-up made no more than the
      first word ever changes. */
  lemma {:induction false} ConfigurationKept(image: Image, internal: seq<byte>, events: seq<Event>)
    ensures SysAfter(image, internal, events).config[4..] == Configured(ConfigOf(Found(image)))[4..]
  {
    hide Making, Found, Configured, ConfigActs, StartActs, BootRam, Played;
    if events != [] {
      var n := |events| - 1;
      ConfigurationKept(image, internal, events[..n]);
      MakingKeepsConfig(SysAfter(image, internal, events[..n]), events[n], internal);
    }
  }

  lemma MakingKeepsConfig(y: Sys, e: Event, internal: seq<byte>)
    ensures Making(y, e, internal).to.config[4..] == y.config[4..]
  {
    hide Played, YieldActs, StartingBackup, UpdateActs, Described, Acceptable, Tick, BackupStarted, Setting, Le32, ToLe32, Bounded, Room;
  }

  /** The chip and the state stay together. */
  lemma {:induction false} Together(image: Image, internal: seq<byte>, events: seq<Event>)
    requires Sound(image) && |internal| == FIRMWARE_SIZE
    ensures var y, f := SysAfter(image, internal, events), ImageAfter(image, internal, events);
            Bounded(y.r, internal) && Settled(f) && f[..INDEX] == y.v
  {
    hide Run, RecoverOps, PlanOps, Making, Settled, StartActs, Played, Bounded;
    if events == [] {
      BootTogether(image, internal);
    } else {
      var n := |events| - 1;
      var front := events[..n];
      Together(image, internal, front);
      var y, f := SysAfter(image, internal, front), ImageAfter(image, internal, front);
      MakingBounded(y, events[n], internal);
      MakingPlays(y, events[n], internal);
      PlanDone(f, Making(y, events[n], internal).acts);
    }
  }

  lemma BootTogether(image: Image, internal: seq<byte>)
    requires Sound(image) && |internal| == FIRMWARE_SIZE
    ensures var y, f := BootSys(image), Run(image, BootOps(image));
            Bounded(y.r, internal) && Settled(f) && f[..INDEX] == y.v
    ensures Settled(Run(image, Recovering(image))) && Found(image) == Contents(image)
  {
    hide Run, RecoverOps, PlanOps, Settled, StartActs, Played, Contents, Fixed, Stored, Configured, ConfigActs;
    var ops := RecoverOps(image);
    RunEnds(image, ops);
    RecoverKeeps(image, |ops|);
    CleanSettled(Run(image, ops), Contents(image));
    PlanDone(Run(image, ops), StartActs(Found(image)));
    RunConcat(image, ops, PlanOps(Run(image, ops), StartActs(Found(image))));
  }

  lemma CleanSettled(f: Image, v: seq<byte>)
    requires Clean(f, v)
    ensures Settled(f) && f[..INDEX] == v
  {
  }

  /** The state after a step has the flash that the step asked for. */
  lemma MakingPlays(y: Sys, e: Event, internal: seq<byte>)
    ensures var m := Making(y, e, internal); m.to.v == Played(y.v, m.acts)
  {
    hide YieldActs, StartingBackup, UpdateActs, Described, Acceptable, Acted, Tick, BackupStarted, Setting;
  }
}
