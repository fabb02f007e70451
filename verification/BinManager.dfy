/** The manager of the stored binaries: backing up the running firmware, erasing
    and filling the upload buffer, and copying the buffer over the backup. */
module BinaryManager {
  import opened Bytes
  import opened NorFlash
  import opened Streams
  import opened Journal
  import opened ExternalMemory
  import opened Binaries
  import opened Plans

  /** A description in RAM, with its busy mark. */
  datatype Wrapper = Wrapper(bin: Bin, busy: bool)

  /** Everything the manager keeps in RAM. */
  datatype Ram = Ram(bootloader: Wrapper, firmware: Wrapper, backup: Wrapper, buffer: Wrapper,
                     backupIndex: nat, backupCounter: nat, eraseIndex: nat, eraseCounter: nat, written: nat)
  {
    function Get(c: Component): Wrapper {
      match c case Bootloader => bootloader case Firmware => firmware case Backup => backup case Buffer => buffer
    }

    function Put(c: Component, w: Wrapper): Ram {
      match c
      case Bootloader => this.(bootloader := w)
      case Firmware => this.(firmware := w)
      case Backup => this.(backup := w)
      case Buffer => this.(buffer := w)
    }
  }

  /** How many subsectors an image of `size` bytes takes. */
  function Blocks(size: nat): nat {
    size / SUBSECTOR + if size % SUBSECTOR != 0 then 1 else 0
  }

  /** While a backup is being made it is marked invalid, and the blocks so far
      are those of the firmware. */
  predicate BackupProgress(r: Ram, v: Disk, internal: seq<byte>) {
    r.backup.busy ==>
      && State(r.backup.bin) == INVALID && State(r.firmware.bin) == VALID
      && |internal| == FIRMWARE_SIZE && 0 < Size(r.firmware.bin) <= FIRMWARE_SIZE
      && r.backupCounter == Blocks(Size(r.firmware.bin)) && r.backupIndex <= r.backupCounter
      && r.backupIndex * SUBSECTOR <= FIRMWARE_SIZE
      && v[BACKUP..BACKUP + r.backupIndex * SUBSECTOR] == internal[..r.backupIndex * SUBSECTOR]
  }

  /** While the buffer is being erased, its subsectors so far are blank. */
  predicate EraseProgress(r: Ram, v: Disk) {
    State(r.buffer.bin) == ERASING ==>
      && r.eraseIndex <= r.eraseCounter && r.eraseCounter * SUBSECTOR <= PARTITION
      && v[..r.eraseIndex * SUBSECTOR] == Blank(r.eraseIndex * SUBSECTOR)
  }

  predicate Synced(r: Ram, v: Disk) {
    forall c :: Stored(v, c) == r.Get(c).bin
  }

  /** What every operation keeps. */
  predicate Inv(r: Ram, v: Disk, o: Origin, internal: seq<byte>) {
    Good(v, o) && Synced(r, v) && BackupProgress(r, v, internal) && EraseProgress(r, v)
  }

  /** After a description was changed in RAM and saved. */
  lemma InvSaved(v: Disk, o: Origin, internal: seq<byte>, c: Component, r: Ram)
    requires Good(v, o) || (c == Backup && FlagSafe(v))
    requires SafeToSave(v, c, r.Get(c).bin, o) && forall e | e != c :: Stored(v, e) == r.Get(e).bin
    requires BackupProgress(r, v, internal) && EraseProgress(r, v)
    ensures Inv(r, Saving(v, c, r.Get(c).bin), o, internal)
  {
    hide Good, FlagSafe, SafeToSave, Saving, Stored;
    var w := Saving(v, c, r.Get(c).bin);
    SavingGood(v, c, r.Get(c).bin, o);
    SavingStores(v, c, r.Get(c).bin);
    SameBelowConfig(v, w, r, internal);
  }

  lemma SameBelowConfig(v: Disk, w: Disk, r: Ram, internal: seq<byte>)
    requires v[..CONFIG] == w[..CONFIG]
    ensures BackupProgress(r, v, internal) ==> BackupProgress(r, w, internal)
    ensures EraseProgress(r, v) ==> EraseProgress(r, w)
  {
    var x, y := r.backupIndex * SUBSECTOR, r.eraseIndex * SUBSECTOR;
    if x <= FIRMWARE_SIZE {
      SameSlices(v, w, CONFIG, BACKUP, BACKUP + x);
    }
    if y <= PARTITION {
      SameSlices(v, w, CONFIG, 0, y);
    }
  }

  /** The firmware description with an unknown size taken as the whole partition. */
  function FixedSize(b: Bin): Bin {
    if Size(b) == 0 || Size(b) == UNKNOWN then WithSize(b, FIRMWARE_SIZE) else b
  }

  lemma FixedSizeIs(b: Bin)
    ensures Size(FixedSize(b)) != 0 && State(FixedSize(b)) == State(b)
    ensures Size(FixedSize(b)) == if Size(b) == 0 || Size(b) == UNKNOWN then FIRMWARE_SIZE else Size(b)
    ensures FixedSize(b)[4..] == b[4..] && (Size(b) != 0 && Size(b) != UNKNOWN ==> FixedSize(b) == b)
  {
    var size := ToLe32(FIRMWARE_SIZE);
    assert Splice(b, 0, size)[0..4] == size && Splice(b, 0, size)[4..] == b[4..];
  }

  const ERROR_FAILED := -2
  const ERROR_BUSY := -3
  const BACKUP_STARTED := 1
  const SKIPPED := 2

  /** `backup_start`, on what the manager keeps in RAM. */
  function BackupStarted(r: Ram, checkBuildId: bool): (Ram, int) {
    if r.backup.busy || r.buffer.busy then (r, ERROR_BUSY)
    else if State(r.firmware.bin) != VALID then (r, ERROR_FAILED)
    else if State(r.backup.bin) == VALID && (!checkBuildId || BuildId(r.firmware.bin) == BuildId(r.backup.bin)) then (r, SKIPPED)
    else
      var fixed := FixedSize(r.firmware.bin);
      var r' := r.(firmware := r.firmware.(bin := fixed), backup := Wrapper(WithState(r.backup.bin, INVALID), false));
      if Size(fixed) > FIRMWARE_SIZE then (r', ERROR_FAILED)
      else (r'.(backup := r'.backup.(busy := true), backupIndex := 0, backupCounter := Blocks(Size(fixed))), BACKUP_STARTED)
  }

  /** What `backup_start` reports, and what it does to the two descriptions. */
  lemma StartsWhen(r: Ram, checkBuildId: bool)
    ensures var (q, rc) := BackupStarted(r, checkBuildId);
            var f, b := r.firmware.bin, r.backup.bin;
            var idle := !r.backup.busy && !r.buffer.busy;
            var done := State(b) == VALID && (checkBuildId ==> CString(f[8..56]) == CString(b[8..56]));
            && rc in {-3, -2, 1, 2} && (rc == -3 <==> !idle)
            && (rc == 2 <==> idle && State(f) == VALID && done)
            && (rc == 1 <==> idle && State(f) == VALID && !done && (Size(f) <= FIRMWARE_SIZE || Size(f) == UNKNOWN))
    ensures var (q, rc) := BackupStarted(r, checkBuildId);
            && q.firmware.bin[4..] == r.firmware.bin[4..] && q.firmware.busy == r.firmware.busy
            && (rc == 1 ==> 0 < Size(q.firmware.bin) <= FIRMWARE_SIZE && q.backup == Wrapper(WithState(r.backup.bin, INVALID), true) &&
                            q.backupIndex == 0 && q.backupCounter == Blocks(Size(q.firmware.bin)))
            && (rc == 2 || rc == -3 ==> q == r)
  {
    hide CString, Blocks, WithState, FixedSize;
    FixedSizeIs(r.firmware.bin);
  }

  /** Which memory fails during a backup step. */
  datatype Fault = NoFault | ReadFault | WriteFault

  lemma BlocksFit(size: nat, i: nat)
    requires size <= FIRMWARE_SIZE
    ensures size <= Blocks(size) * SUBSECTOR <= FIRMWARE_SIZE && (size > 0 ==> Blocks(size) > 0)
    ensures Blocks(size) * SUBSECTOR < size + SUBSECTOR
    ensures i < Blocks(size) ==> i * SUBSECTOR + SUBSECTOR <= FIRMWARE_SIZE
  {
  }

  /** What copying all blocks leaves of the firmware in the backup partition. */
  lemma OutcomeHolds(v: Disk, e: nat, hi: nat, internal: seq<byte>, b: Bin, c: Bin, n: nat)
    requires hi * SUBSECTOR <= FIRMWARE_SIZE == |internal| && e * SUBSECTOR <= PARTITION && n <= hi * SUBSECTOR
    ensures Outcome(v, e, 0, hi, internal, b, c)[BACKUP..BACKUP + n] == internal[..n]
  {
  }

  /** One more block of the backup is in place. */
  lemma MoreBackup(v: Disk, internal: seq<byte>, at: nat)
    requires at + SUBSECTOR <= FIRMWARE_SIZE == |internal| && v[BACKUP..BACKUP + at] == internal[..at]
    ensures Splice(v, BACKUP + at, internal[at..at + SUBSECTOR])[BACKUP..BACKUP + at + SUBSECTOR] == internal[..at + SUBSECTOR]
  {
    var w := Splice(v, BACKUP + at, internal[at..at + SUBSECTOR]);
    assert w[BACKUP..BACKUP + at + SUBSECTOR] == v[BACKUP..BACKUP + at] + internal[at..at + SUBSECTOR];
    assert internal[..at] + internal[at..at + SUBSECTOR] == internal[..at + SUBSECTOR];
  }

  /** Writing above the buffer partition does not disturb its erasure. */
  lemma MoreErase(r: Ram, v: Disk, d: seq<byte>, a: nat)
    requires PARTITION <= a && a + |d| <= INDEX && EraseProgress(r, v)
    ensures EraseProgress(r, Splice(v, a, d))
  {
    if State(r.buffer.bin) == ERASING {
      SpliceSlice(v, a, d, 0, r.eraseIndex * SUBSECTOR);
      assert v[..r.eraseIndex * SUBSECTOR] == v[0..r.eraseIndex * SUBSECTOR];
      assert Splice(v, a, d)[..r.eraseIndex * SUBSECTOR] == Splice(v, a, d)[0..r.eraseIndex * SUBSECTOR];
    }
  }

  lemma SpliceSameBut(v: seq<byte>, a: nat, d: seq<byte>)
    requires a + |d| <= |v|
    ensures SameBut(Splice(v, a, d), v, a, a + |d|)
  {
  }

  /** One more block has been written. */
  lemma BlockCopied(r: Ram, s: Chip, o: Origin, internal: seq<byte>, at: nat, d: seq<byte>, t: Chip)
    requires Settled(s.mem) && Inv(r, s.mem[..INDEX], o, internal) && r.backup.busy && r.backupIndex < r.backupCounter
    requires at == r.backupIndex * SUBSECTOR && at + SUBSECTOR <= FIRMWARE_SIZE == |internal| && d == internal[at..at + SUBSECTOR]
    requires Did(s, WriteOps(s.mem, BACKUP + at, d), t) && t.mem == Splice(s.mem, BACKUP + at, d)
    ensures Settled(t.mem) && t.mem[..INDEX] == Splice(s.mem[..INDEX], BACKUP + at, d)
    ensures Inv(r.(backupIndex := r.backupIndex + 1), t.mem[..INDEX], o, internal)
    ensures Weathered(s, t, o, o) && Planned(s, [Rewrite(BACKUP + at, d)], t)
  {
    hide Weathered, Good, Did, Splice, Within, WriteOps, Settled, Planned, PlanOps, Played, Stored;
    var v := s.mem[..INDEX];
    PlannedOne(s, Rewrite(BACKUP + at, d), t);
    BlockWritten(s, BACKUP + at, d, t);
    WithinWeathers(s, t, o, o, BACKUP + at, BACKUP + at + SUBSECTOR);
    SpliceSameBut(v, BACKUP + at, d);
    GoodElsewhere(v, t.mem[..INDEX], o, BACKUP + at, BACKUP + at + SUBSECTOR);
    BlocksFit(Size(r.firmware.bin), r.backupIndex);
    MoreBackup(v, internal, at);
    MoreErase(r, v, d, BACKUP + at);
  }

  /** Once all blocks are copied the backup may be published. */
  lemma WholeBackup(r: Ram, v: Disk, internal: seq<byte>)
    requires BackupProgress(r, v, internal) && r.backup.busy && r.backupIndex == r.backupCounter
    ensures SafeToSave(v, Backup, r.firmware.bin, Origin(Meta(r.firmware.bin), internal[..Size(r.firmware.bin)]))
  {
    BlocksFit(Size(r.firmware.bin), 0);
    var n, at := Size(r.firmware.bin), r.backupIndex * SUBSECTOR;
    assert v[BACKUP..BACKUP + n] == v[BACKUP..BACKUP + at][..n] == internal[..at][..n] == internal[..n];
  }

  // ---- what is asked of the flash --------------------------------------------

  /** Saving a description. */
  function Writing(c: Component, b: Bin): Act {
    Save(Place(c), b)
  }

  /** `set_state`: saved only if it is a change. */
  function Setting(c: Component, b: Bin, val: byte): seq<Act> {
    if State(b) == val then [] else [Writing(c, WithState(b, val))]
  }

  predicate Unsized(b: Bin) {
    Size(b) == 0 || Size(b) == UNKNOWN
  }

  /** Is something in the way of a backup, or is there no need of one? */
  predicate Refuses(r: Ram, checkBuildId: bool) {
    || r.backup.busy || r.buffer.busy || State(r.firmware.bin) != VALID
    || (State(r.backup.bin) == VALID && (!checkBuildId || BuildId(r.firmware.bin) == BuildId(r.backup.bin)))
  }

  lemma Refused(r: Ram, checkBuildId: bool)
    ensures Refuses(r, checkBuildId) ==>
              && StartingBackup(r, checkBuildId) == []
              && BackupStarted(r, checkBuildId) == (r, if r.backup.busy || r.buffer.busy then ERROR_BUSY
                                                       else if State(r.firmware.bin) != VALID then ERROR_FAILED else SKIPPED)
  {
    hide BuildId;
  }

  function StartingBackup(r: Ram, checkBuildId: bool): seq<Act> {
    if Refuses(r, checkBuildId) then []
    else
      (if Unsized(r.firmware.bin) then [Writing(Firmware, FixedSize(r.firmware.bin))] else []) + Setting(Backup, r.backup.bin, INVALID)
  }

  /** A backup under way stays within the firmware. */
  predicate Bounded(r: Ram, internal: seq<byte>) {
    |internal| == FIRMWARE_SIZE &&
    (r.backup.busy ==>
      && Size(r.firmware.bin) <= FIRMWARE_SIZE && r.backupCounter == Blocks(Size(r.firmware.bin)) && r.backupIndex <= r.backupCounter)
  }

  lemma ProgressBounded(r: Ram, v: Disk, internal: seq<byte>)
    requires BackupProgress(r, v, internal) && |internal| == FIRMWARE_SIZE
    ensures Bounded(r, internal)
  {
  }

  /** `_backup_function`, on what the manager keeps in RAM, whatever the state of
      the backup. */
  function BackupTick(r: Ram, fault: Fault): (Ram, int) {
    if !r.backup.busy then (r, 0)
    else if r.backupIndex < r.backupCounter then
      var failed := r.(backup := Wrapper(WithState(r.backup.bin, INVALID), false));
      match fault
      case ReadFault => (failed, -1)
      case WriteFault => (failed, -2)
      case NoFault => (r.(backupIndex := r.backupIndex + 1), 1)
    else if r.backupIndex == r.backupCounter then (r.(backup := Wrapper(WithState(r.firmware.bin, VALID), false)), 0)
    else (r, 0)
  }

  function BackupActs(r: Ram, internal: seq<byte>, fault: Fault): seq<Act>
    requires r.backup.busy ==> Bounded(r, internal)
  {
    if !r.backup.busy then []
    else if r.backupIndex < r.backupCounter then
      if fault != NoFault then Setting(Backup, r.backup.bin, INVALID)
      else
        BlocksFit(Size(r.firmware.bin), r.backupIndex);
        var at := r.backupIndex * SUBSECTOR;
        [Rewrite(BACKUP + at, internal[at..at + SUBSECTOR])]
    else
      CopyingState(Backup, r.backup.bin, r.firmware.bin) + Setting(Backup, r.firmware.bin, VALID)
  }

  /** `_copy_binary` with the state: saved only if the state changes. */
  function CopyingState(c: Component, dest: Bin, src: Bin): seq<Act> {
    if State(dest) == State(src) then [] else [Writing(c, src)]
  }

  /** `_erase_function`, on what the manager keeps in RAM. */
  function EraseTick(r: Ram): (Ram, int) {
    if State(r.buffer.bin) != ERASING then (r, 0)
    else if r.eraseIndex < r.eraseCounter then (r.(eraseIndex := r.eraseIndex + 1, buffer := r.buffer.(busy := true)), 1)
    else (r.(buffer := Wrapper(WithState(r.buffer.bin, ERASED), false)), 0)
  }

  function EraseActs(r: Ram): seq<Act>
    requires EraseRoom(r)
  {
    if State(r.buffer.bin) != ERASING then []
    else if r.eraseIndex < r.eraseCounter then [Wipe(r.eraseIndex, 1)]
    else [Writing(Buffer, WithState(r.buffer.bin, ERASED))]
  }

  /** `yield`, on what the manager keeps in RAM. */
  function Tick(r: Ram, fault: Fault): (Ram, int) {
    var (r1, rc1) := BackupTick(r, fault);
    var (r2, rc2) := EraseTick(r1);
    (r2, rc1 + rc2)
  }

  function YieldActs(r: Ram, internal: seq<byte>, fault: Fault): seq<Act>
    requires (r.backup.busy ==> Bounded(r, internal)) && EraseRoom(r)
  {
    BackupActs(r, internal, fault) + EraseActs(r)
  }

  /** Is this description blank, or its state impossible? */
  predicate Broken(b: Bin) {
    Empty(b) || State(b) > ERASED
  }

  function FixActs(v: Disk, c: Component): seq<Act> {
    if Broken(Stored(v, c)) then [Writing(c, Fixed(Stored(v, c)))] else []
  }

  function AllFixActs(v: Disk): seq<Act> {
    FixActs(v, Bootloader) + FixActs(v, Firmware) + FixActs(v, Backup) + FixActs(v, Buffer)
  }

  function Wiping(n: nat): seq<Act>
    requires n * SUBSECTOR <= CONFIG
  {
    seq(n, i requires 0 <= i < n => Wipe(i, 1))
  }

  /** Finishing an interrupted erasure: 513 subsectors. */
  function RestoreActs(b: Bin): seq<Act> {
    if State(b) != ERASING then [] else Wiping(PARTITION / SUBSECTOR + 1) + [Writing(Buffer, WithState(b, ERASED))]
  }

  /** Copying the first `n` pages of the buffer partition to the backup partition,
      beginning with the flash `v`. */
  function CopyActs(v: Disk, n: nat): seq<Act>
    requires BACKUP + n * PAGE <= INDEX
  {
    if n == 0 then []
    else
      var before := CopyActs(v, n - 1);
      before + [PageAct(Played(v, before), n - 1)]
  }

  /** Copying page `i`. */
  function PageAct(v: Disk, i: nat): Act
    requires BACKUP + i * PAGE + PAGE <= INDEX
  {
    Burn(BACKUP + i * PAGE, v[BUFFER + i * PAGE..BUFFER + i * PAGE + PAGE])
  }

  function PagesOf(size: nat): nat {
    size / PAGE + if size % PAGE != 0 then 1 else 0
  }

  /** Does an update of that size stay below the journal? */
  predicate UpdateRoom(size: nat) {
    BACKUP + (size / SUBSECTOR + 1) * SUBSECTOR <= INDEX
  }

  /** Erasing as much of the backup partition as `n` bytes need, and copying. */
  function CopyingActs(v: Disk, n: nat): seq<Act>
    requires UpdateRoom(n)
  {
    var wipe := Wipe(BACKUP / SUBSECTOR, n / SUBSECTOR + 1);
    [wipe] + CopyActs(Played(v, [wipe]), PagesOf(n))
  }

  /** `update_component` for the backup. */
  function UpdateActs(r: Ram, v: Disk): seq<Act>
    requires UpdateRoom(Size(r.buffer.bin))
  {
    var mark := Setting(Backup, r.backup.bin, INVALID);
    mark + CopyingActs(Played(v, mark), Size(r.buffer.bin)) + [Writing(Backup, WithState(r.buffer.bin, VALID))]
  }

  /** Does the next erasure stay below the journal? */
  predicate EraseRoom(r: Ram) {
    State(r.buffer.bin) == ERASING && r.eraseIndex < r.eraseCounter ==> r.eraseIndex * SUBSECTOR + SUBSECTOR <= INDEX
  }

  /** `yield`, on what the manager keeps in RAM and on the flash. */
  function Yielded(r: Ram, v: Disk, internal: seq<byte>, fault: Fault): (Ram, Disk, int)
    requires (r.backup.busy ==> Bounded(r, internal)) && EraseRoom(r)
  {
    var (q, rc) := Tick(r, fault);
    (q, Played(v, YieldActs(r, internal, fault)), rc)
  }

  /** The first half of it, and the second. */
  function BackupYielded(r: Ram, v: Disk, internal: seq<byte>, fault: Fault): (Ram, Disk, int)
    requires r.backup.busy ==> Bounded(r, internal)
  {
    var (q, rc) := BackupTick(r, fault);
    (q, Played(v, BackupActs(r, internal, fault)), rc)
  }

  function EraseYielded(r: Ram, v: Disk): (Ram, Disk, int)
    requires EraseRoom(r)
  {
    var (q, rc) := EraseTick(r);
    (q, Played(v, EraseActs(r)), rc)
  }

  lemma YieldedIs(r: Ram, v: Disk, internal: seq<byte>, fault: Fault)
    requires (r.backup.busy ==> Bounded(r, internal)) && EraseRoom(r)
    ensures var (q, w, rc) := Yielded(r, v, internal, fault); Tick(r, fault) == (q, rc) && w == Played(v, YieldActs(r, internal, fault))
    ensures |internal| == FIRMWARE_SIZE ==> Bounded(r, internal)
  {
    hide Tick, YieldActs, Played;
  }

  lemma YieldsBoth(r: Ram, v: Disk, internal: seq<byte>, fault: Fault)
    requires (r.backup.busy ==> Bounded(r, internal)) && EraseRoom(r)
    ensures var (q, w, rc) := BackupYielded(r, v, internal, fault);
            && q.buffer == r.buffer && q.eraseIndex == r.eraseIndex && q.eraseCounter == r.eraseCounter && EraseRoom(q)
            && var (q', w', rc') := EraseYielded(q, w);
               Yielded(r, v, internal, fault) == (q', w', rc + rc')
  {
    hide Played, BackupActs, EraseActs;
    var q := BackupTick(r, fault).0;
    EraseActsSame(r, q);
    PlayedConcat(v, BackupActs(r, internal, fault), EraseActs(r));
  }

  lemma EraseActsSame(r: Ram, q: Ram)
    requires EraseRoom(r) && q.buffer == r.buffer && q.eraseIndex == r.eraseIndex && q.eraseCounter == r.eraseCounter
    ensures EraseRoom(q) && EraseActs(q) == EraseActs(r)
  {
  }

  /** What that comes to while a backup is properly under way. */
  lemma BackupYields(r: Ram, v: Disk, internal: seq<byte>, fault: Fault)
    requires BackupProgress(r, v, internal)
    ensures BackupYielded(r, v, internal, fault) ==
            if !r.backup.busy then (r, v, 0)
            else if r.backupIndex < r.backupCounter then
              if fault == ReadFault then (r.(backup := r.backup.(busy := false)), v, -1)
              else if fault == WriteFault then (r.(backup := r.backup.(busy := false)), v, -2)
              else
                BlocksFit(Size(r.firmware.bin), r.backupIndex);
                var at := r.backupIndex * SUBSECTOR;
                (r.(backupIndex := r.backupIndex + 1), Splice(v, BACKUP + at, internal[at..at + SUBSECTOR]), 1)
            else (r.(backup := Wrapper(r.firmware.bin, false)), Saving(v, Backup, r.firmware.bin), 0)
  {
    hide Splice, Played, Stored;
    PlayedNothing(v);
    if r.backup.busy {
      BlocksFit(Size(r.firmware.bin), r.backupIndex);
      SameState(r.backup.bin, INVALID);
      SameState(r.firmware.bin, VALID);
      if r.backupIndex < r.backupCounter {
        var at := r.backupIndex * SUBSECTOR;
        PlayedOne(v, Rewrite(BACKUP + at, internal[at..at + SUBSECTOR]));
      } else {
        var x := Writing(Backup, r.firmware.bin);
        PlayedOne(v, x);
        assert [x] + [] == [x];
      }
    }
  }

  lemma SameState(b: Bin, val: byte)
    ensures State(b) == val ==> WithState(b, val) == b
  {
  }

  lemma EraseYields(r: Ram, v: Disk)
    requires EraseRoom(r)
    ensures EraseYielded(r, v) ==
            if State(r.buffer.bin) != ERASING then (r, v, 0)
            else if r.eraseIndex < r.eraseCounter then
              (r.(eraseIndex := r.eraseIndex + 1, buffer := r.buffer.(busy := true)), Splice(v, r.eraseIndex * SUBSECTOR, Blank(SUBSECTOR)), 1)
            else
              var done := WithState(r.buffer.bin, ERASED);
              (r.(buffer := Wrapper(done, false)), Saving(v, Buffer, done), 0)
  {
    hide Splice, Played, Stored;
    PlayedNothing(v);
    if State(r.buffer.bin) == ERASING {
      assert Blank(1 * SUBSECTOR) == Blank(SUBSECTOR);
      if r.eraseIndex < r.eraseCounter {
        PlayedOne(v, Wipe(r.eraseIndex, 1));
      } else {
        PlayedOne(v, Writing(Buffer, WithState(r.buffer.bin, ERASED)));
      }
    }
  }

  lemma ProgressBounds(r: Ram, v: Disk)
    requires EraseProgress(r, v)
    ensures EraseRoom(r)
  {
  }

  /** How many rounds of background work are left at most. */
  function Work(r: Ram): nat {
    (if r.backup.busy && r.backupIndex <= r.backupCounter then r.backupCounter - r.backupIndex + 1 else 0) +
    (if State(r.buffer.bin) == ERASING && r.eraseIndex <= r.eraseCounter then r.eraseCounter - r.eraseIndex + 1 else 0)
  }

  /** A round that reports something, even a failure, leaves less work; one that
      reports nothing and did not fail leaves none. */
  lemma YieldWorks(r: Ram, v: Disk, internal: seq<byte>, fault: Fault)
    requires BackupProgress(r, v, internal) && EraseRoom(r)
    ensures var (r', _, rc) := Yielded(r, v, internal, fault);
            && Work(r') <= Work(r) && (rc != 0 ==> Work(r') < Work(r))
            && (rc == 0 && fault == NoFault ==> !r'.backup.busy && State(r'.buffer.bin) != ERASING)
            && (r'.backup.busy ==> r.backup.busy && r.backupIndex < r.backupCounter)
            && r'.firmware == r.firmware
  {
    hide Splice, Saving, Stored, Yielded, BackupYielded, EraseYielded;
    YieldsBoth(r, v, internal, fault);
    BackupYields(r, v, internal, fault);
    var (q, w, _) := BackupYielded(r, v, internal, fault);
    EraseYields(q, w);
  }

  /** A round reports 0 with an erasure still to do exactly if it copies a block of
      the backup and reading that block fails: the code -1 of the one cancels the
      1 of the other. */
  lemma YieldEndsEarly(r: Ram, v: Disk, internal: seq<byte>, fault: Fault)
    requires BackupProgress(r, v, internal) && EraseRoom(r)
    ensures var (r', _, rc) := Yielded(r, v, internal, fault);
            rc == 0 && State(r'.buffer.bin) == ERASING <==>
              && r.backup.busy && r.backupIndex < r.backupCounter && fault == ReadFault
              && State(r.buffer.bin) == ERASING && r.eraseIndex < r.eraseCounter
  {
    hide Splice, Saving, Stored, Yielded, BackupYielded, EraseYielded;
    YieldsBoth(r, v, internal, fault);
    BackupYields(r, v, internal, fault);
    var (q, w, _) := BackupYielded(r, v, internal, fault);
    EraseYields(q, w);
  }

  // ---- what the background work comes to ----------------------------------------

  /** The flash `v` with the first `e` subsectors blank, the blocks `lo` to `hi` of
      the backup copied, and the two descriptions `b` and `c`; all else as it was. */
  function Outcome(v: Disk, e: nat, lo: nat, hi: nat, internal: seq<byte>, b: Bin, c: Bin): Disk
    requires hi * SUBSECTOR <= FIRMWARE_SIZE == |internal|
  {
    seq(INDEX, i requires 0 <= i < INDEX =>
      if i < e * SUBSECTOR then 0xFF
      else if BACKUP + lo * SUBSECTOR <= i < BACKUP + hi * SUBSECTOR then internal[i - BACKUP]
      else if Place(Backup) <= i < Place(Backup) + STRUCT then b[i - Place(Backup)]
      else if Place(Buffer) <= i < Place(Buffer) + STRUCT then c[i - Place(Buffer)]
      else v[i])
  }

  lemma OutcomeStarts(v: Disk, e: nat, lo: nat, internal: seq<byte>)
    requires lo * SUBSECTOR <= FIRMWARE_SIZE == |internal| && e * SUBSECTOR <= PARTITION && v[..e * SUBSECTOR] == Blank(e * SUBSECTOR)
    ensures Outcome(v, e, lo, lo, internal, Stored(v, Backup), Stored(v, Buffer)) == v
  {
    forall i | 0 <= i < INDEX
      ensures Outcome(v, e, lo, lo, internal, Stored(v, Backup), Stored(v, Buffer))[i] == v[i]
    {
      if i < e * SUBSECTOR {
        assert v[i] == v[..e * SUBSECTOR][i];
      }
    }
  }

  lemma OutcomeErases(v: Disk, e: nat, lo: nat, hi: nat, internal: seq<byte>, b: Bin, c: Bin)
    requires hi * SUBSECTOR <= FIRMWARE_SIZE == |internal| && e * SUBSECTOR + SUBSECTOR <= PARTITION
    ensures Splice(Outcome(v, e, lo, hi, internal, b, c), e * SUBSECTOR, Blank(SUBSECTOR)) == Outcome(v, e + 1, lo, hi, internal, b, c)
  {
    hide Splice;
    var w, y := Outcome(v, e, lo, hi, internal, b, c), Outcome(v, e + 1, lo, hi, internal, b, c);
    forall i | 0 <= i < INDEX
      ensures Splice(w, e * SUBSECTOR, Blank(SUBSECTOR))[i] == y[i]
    {
      SpliceAt(w, e * SUBSECTOR, Blank(SUBSECTOR), i);
    }
  }

  lemma OutcomeCopies(v: Disk, e: nat, lo: nat, hi: nat, internal: seq<byte>, b: Bin, c: Bin)
    requires lo <= hi && hi * SUBSECTOR + SUBSECTOR <= FIRMWARE_SIZE == |internal| && e * SUBSECTOR <= PARTITION
    ensures Splice(Outcome(v, e, lo, hi, internal, b, c), BACKUP + hi * SUBSECTOR, internal[hi * SUBSECTOR..hi * SUBSECTOR + SUBSECTOR])
         == Outcome(v, e, lo, hi + 1, internal, b, c)
  {
    hide Splice;
    var w, d := Outcome(v, e, lo, hi, internal, b, c), internal[hi * SUBSECTOR..hi * SUBSECTOR + SUBSECTOR];
    var y := Outcome(v, e, lo, hi + 1, internal, b, c);
    forall i | 0 <= i < INDEX
      ensures Splice(w, BACKUP + hi * SUBSECTOR, d)[i] == y[i]
    {
      SpliceAt(w, BACKUP + hi * SUBSECTOR, d, i);
    }
  }

  lemma OutcomeSaves(v: Disk, e: nat, lo: nat, hi: nat, internal: seq<byte>, b: Bin, c: Bin, x: Bin)
    requires hi * SUBSECTOR <= FIRMWARE_SIZE == |internal| && e * SUBSECTOR <= PARTITION
    ensures Saving(Outcome(v, e, lo, hi, internal, b, c), Backup, x) == Outcome(v, e, lo, hi, internal, x, c)
    ensures Saving(Outcome(v, e, lo, hi, internal, b, c), Buffer, x) == Outcome(v, e, lo, hi, internal, b, x)
  {
    hide Splice;
    var w := Outcome(v, e, lo, hi, internal, b, c);
    var y, z := Outcome(v, e, lo, hi, internal, x, c), Outcome(v, e, lo, hi, internal, b, x);
    forall i | 0 <= i < INDEX
      ensures Saving(w, Backup, x)[i] == y[i] && Saving(w, Buffer, x)[i] == z[i]
    {
      SpliceAt(w, Place(Backup), x, i);
      SpliceAt(w, Place(Buffer), x, i);
    }
  }

  /** How far the background work begun at `(r, v)` has come at `(q, w)`, if no
      memory fails. */
  predicate Advanced(r: Ram, v: Disk, internal: seq<byte>, q: Ram, w: Disk) {
    && |internal| == FIRMWARE_SIZE && q.firmware == r.firmware && q.backupCounter == r.backupCounter && q.eraseCounter == r.eraseCounter
    && BackupAdvanced(r, q) && EraseAdvanced(r, q)
    && w == Outcome(v, if State(r.buffer.bin) == ERASING then q.eraseIndex else 0,
                    if r.backup.busy then r.backupIndex else 0, if r.backup.busy then q.backupIndex else 0,
                    internal, q.backup.bin, q.buffer.bin)
  }

  predicate BackupAdvanced(r: Ram, q: Ram) {
    && (r.backup.busy ==> r.backupIndex <= q.backupIndex && q.backupIndex * SUBSECTOR <= FIRMWARE_SIZE)
    && if q.backup.busy then r.backup.busy && q.backup.bin == r.backup.bin && q.backupIndex <= q.backupCounter
       else if r.backup.busy then q.backup.bin == r.firmware.bin && q.backupIndex == q.backupCounter
       else q.backup == r.backup && q.backupIndex == r.backupIndex
  }

  predicate EraseAdvanced(r: Ram, q: Ram) {
    if State(r.buffer.bin) != ERASING then q.buffer == r.buffer
    else
      && q.eraseIndex <= q.eraseCounter && q.eraseCounter * SUBSECTOR <= PARTITION
      && if State(q.buffer.bin) == ERASING then q.buffer.bin == r.buffer.bin
         else q.buffer.bin == WithState(r.buffer.bin, ERASED) && q.eraseIndex == q.eraseCounter
  }

  lemma AdvanceStarts(r: Ram, v: Disk, o: Origin, internal: seq<byte>)
    requires Inv(r, v, o, internal) && |internal| == FIRMWARE_SIZE
    ensures Advanced(r, v, internal, r, v)
  {
    hide Good, Outcome, Stored;
    assert Stored(v, Backup) == r.Get(Backup).bin && Stored(v, Buffer) == r.Get(Buffer).bin;
    OutcomeStarts(v, if State(r.buffer.bin) == ERASING then r.eraseIndex else 0, if r.backup.busy then r.backupIndex else 0, internal);
  }

  /** A round of background work without a fault advances both jobs. */
  lemma YieldAdvances(r: Ram, v: Disk, internal: seq<byte>, q: Ram, w: Disk)
    requires BackupProgress(q, w, internal) && EraseRoom(q) && Advanced(r, v, internal, q, w)
    ensures var (q', w', _) := Yielded(q, w, internal, NoFault); Advanced(r, v, internal, q', w')
  {
    hide Outcome, Saving, Splice, Stored, Yielded, BackupYielded, EraseYielded;
    YieldsBoth(q, w, internal, NoFault);
    var (q1, w1, _) := BackupYielded(q, w, internal, NoFault);
    BackupAdvances(r, v, internal, q, w);
    EraseAdvances(r, v, internal, q1, w1);
  }

  lemma BackupAdvances(r: Ram, v: Disk, internal: seq<byte>, q: Ram, w: Disk)
    requires BackupProgress(q, w, internal) && Advanced(r, v, internal, q, w)
    ensures var (q', w', _) := BackupYielded(q, w, internal, NoFault); Advanced(r, v, internal, q', w')
  {
    hide Outcome, Saving, Splice, Stored, BackupYielded;
    BackupYields(q, w, internal, NoFault);
    var e := if State(r.buffer.bin) == ERASING then q.eraseIndex else 0;
    if q.backup.busy {
      BlocksFit(Size(q.firmware.bin), q.backupIndex);
      if q.backupIndex < q.backupCounter {
        OutcomeCopies(v, e, r.backupIndex, q.backupIndex, internal, q.backup.bin, q.buffer.bin);
      } else {
        OutcomeSaves(v, e, r.backupIndex, q.backupIndex, internal, q.backup.bin, q.buffer.bin, q.firmware.bin);
      }
    }
  }

  lemma EraseAdvances(r: Ram, v: Disk, internal: seq<byte>, q: Ram, w: Disk)
    requires EraseRoom(q) && Advanced(r, v, internal, q, w)
    ensures var (q', w', _) := EraseYielded(q, w); Advanced(r, v, internal, q', w')
  {
    hide Outcome, Saving, Splice, Stored, EraseYielded;
    EraseYields(q, w);
    var lo, hi := if r.backup.busy then r.backupIndex else 0, if r.backup.busy then q.backupIndex else 0;
    if State(q.buffer.bin) == ERASING {
      WithStateMeta(r.buffer.bin, ERASED);
      if q.eraseIndex < q.eraseCounter {
        OutcomeErases(v, q.eraseIndex, lo, hi, internal, q.backup.bin, q.buffer.bin);
      } else {
        OutcomeSaves(v, q.eraseIndex, lo, hi, internal, q.backup.bin, q.buffer.bin, WithState(q.buffer.bin, ERASED));
      }
    }
  }

  /** `struct_is_empty`. */
  predicate Empty(b: Bin) {
    forall k | 0 <= k < STRUCT :: b[k] == 0xFF || b[k] == 0
  }

  lemma EmptyIs(b: Bin)
    ensures Empty(b) <==> forall k | 0 <= k < STRUCT :: b[k] == 0xFF || b[k] == 0
  {
  }

  /** `defaults_struct_bin`: empty strings are written as a terminating NUL. */
  function Defaults(b: Bin): Bin {
    seq(STRUCT, i requires 0 <= i < STRUCT =>
      if i < 9 || i == 56 || 88 <= i < 93 || i == 124 || i == 156 then 0 else b[i])
  }

  function Fixed(b: Bin): Bin {
    if Empty(b) then Defaults(b) else if State(b) > ERASED then WithState(b, INVALID) else b
  }

  /** Repairing only ever makes a description invalid. */
  lemma FixedState(b: Bin)
    ensures Fixed(b) == b || (State(Fixed(b)) == INVALID && State(b) != VALID && State(b) != ERASING && State(b) != ERASED)
  {
  }

  function AllFixed(v: Disk): Disk {
    var v0 := Saving(v, Bootloader, Fixed(Stored(v, Bootloader)));
    var v1 := Saving(v0, Firmware, Fixed(Stored(v, Firmware)));
    var v2 := Saving(v1, Backup, Fixed(Stored(v, Backup)));
    Saving(v2, Buffer, Fixed(Stored(v, Buffer)))
  }

  lemma FixingGood(v: Disk, c: Component, o: Origin)
    requires Good(v, o)
    ensures Good(Saving(v, c, Fixed(Stored(v, c))), o)
  {
    hide Saving, Stored, Fixed;
    FixedState(Stored(v, c));
    SavingGood(v, c, Fixed(Stored(v, c)), o);
  }

  lemma SameStateFixed(v: Disk)
    ensures State(Stored(AllFixed(v), Buffer)) == ERASING <==> State(Stored(v, Buffer)) == ERASING
  {
    hide Saving, Stored, Fixed;
    var v0 := Saving(v, Bootloader, Fixed(Stored(v, Bootloader)));
    var v1 := Saving(v0, Firmware, Fixed(Stored(v, Firmware)));
    var v2 := Saving(v1, Backup, Fixed(Stored(v, Backup)));
    SavingStores(v2, Buffer, Fixed(Stored(v, Buffer)));
    FixedState(Stored(v, Buffer));
  }

  /** What finishing an interrupted erasure leaves: it covers 513 subsectors. */
  function Restored(v: Disk): Disk {
    if State(Stored(v, Buffer)) != ERASING then v
    else Saving(Splice(v, BUFFER, Blank((PARTITION / SUBSECTOR + 1) * SUBSECTOR)), Buffer, WithState(Stored(v, Buffer), ERASED))
  }

  /** The description after repair. */
  function Repaired(b: Bin, forced: bool): Bin {
    if forced then Defaults(b) else Fixed(b)
  }

  /** A description that is blank, or to be reset, gets the defaults: no size, no
      checksum, no time, empty texts, and invalid; of any other only an impossible
      state is changed. */
  lemma RepairedIs(b: Bin, forced: bool)
    ensures var d := Repaired(b, forced);
            if forced || forall k | 0 <= k < STRUCT :: b[k] == 0xFF || b[k] == 0 then
              && Le32(d[0..4]) == Le32(d[4..8]) == Le32(d[88..92]) == 0 && d[156] == INVALID
              && CString(d[8..56]) == CString(d[56..88]) == CString(d[92..124]) == CString(d[124..156]) == []
              && d[9..56] == b[9..56] && d[57..88] == b[57..88] && d[93..124] == b[93..124] && d[125..156] == b[125..156] && d[157..] == b[157..]
            else d == if b[156] > 3 then b[156 := 0] else b
  {
    hide Le32;
    var d := Repaired(b, forced);
    if forced || Empty(b) {
      assert d[0..4] == d[4..8] == d[88..92] == [0, 0, 0, 0];
      NoWord();
    }
  }

  lemma NoWord()
    ensures Le32([0, 0, 0, 0]) == 0
  {
  }

  /** What start-up leaves in RAM, and what it asks of the flash. */
  function BootRam(v: Disk): Ram {
    var b := Fixed(Stored(v, Buffer));
    var e := if State(b) == ERASING then PARTITION / SUBSECTOR + 1 else 0;
    Ram(Wrapper(Fixed(Stored(v, Bootloader)), false), Wrapper(Fixed(Stored(v, Firmware)), false), Wrapper(Fixed(Stored(v, Backup)), false),
        Wrapper(if State(b) == ERASING then WithState(b, ERASED) else b, false), 0, 0, e, e, 0)
  }

  function BootActs(v: Disk): seq<Act> {
    AllFixActs(v) + RestoreActs(Fixed(Stored(v, Buffer)))
  }

  // ---- finishing an erasure, wherever it is cut ---------------------------------

  /** The origin of a backup that has lost its first subsector. */
  function Blanked(o: Origin): Origin {
    Origin(o.meta, if |o.image| <= SUBSECTOR then Blank(|o.image|) else Blank(SUBSECTOR) + o.image[SUBSECTOR..])
  }

  /** Losing the first subsector of the backup keeps both promises, for what is
      left of its origin. */
  lemma BlankedGood(v: Disk, o: Origin)
    requires Good(v, o)
    ensures Good(Splice(v, BACKUP, Blank(SUBSECTOR)), Blanked(o))
  {
    hide Le32, Splice;
    var w := Splice(v, BACKUP, Blank(SUBSECTOR));
    SpliceSameBut(v, BACKUP, Blank(SUBSECTOR));
    StoredElsewhere(v, w, BACKUP, BACKUP + SUBSECTOR);
    SpliceSlice(v, BACKUP, Blank(SUBSECTOR), CONFIG, CONFIG + 4);
    var n := Size(Stored(v, Backup));
    if State(Stored(v, Backup)) == VALID {
      if n <= SUBSECTOR {
        SpliceSlice(v, BACKUP, Blank(SUBSECTOR), BACKUP, BACKUP + n);
        assert Blank(SUBSECTOR)[0..n] == Blank(n);
      } else {
        SliceJoin(w, BACKUP, BACKUP + SUBSECTOR, BACKUP + n);
        SpliceSlice(v, BACKUP, Blank(SUBSECTOR), BACKUP, BACKUP + SUBSECTOR);
        SpliceSlice(v, BACKUP, Blank(SUBSECTOR), BACKUP + SUBSECTOR, BACKUP + n);
        assert Blank(SUBSECTOR)[0..SUBSECTOR] == Blank(SUBSECTOR);
        assert v[BACKUP..BACKUP + n][SUBSECTOR..] == v[BACKUP + SUBSECTOR..BACKUP + n];
      }
    }
  }

  lemma OneWiped(s: Chip, i: nat, t: Chip)
    requires i * SUBSECTOR + SUBSECTOR <= CONFIG && Settled(s.mem) && Planned(s, [Wipe(i, 1)], t)
    ensures Did(s, EraseOps(i, 1), t) && t.mem == Splice(s.mem, i * SUBSECTOR, Blank(SUBSECTOR))
  {
    hide Run, Did, Splice;
    OnePlanned(s, Wipe(i, 1), t);
    EraseDone(s.mem, i, 1);
    DidMeans(s, EraseOps(i, 1), t);
    assert Blank(1 * SUBSECTOR) == Blank(SUBSECTOR);
  }

  /** Erasing one subsector of the buffer, or the first of the backup. */
  lemma WipeWeathers(s: Chip, i: nat, t: Chip, o: Origin)
    requires i <= PARTITION / SUBSECTOR && Settled(s.mem) && Planned(s, [Wipe(i, 1)], t) && Good(s.mem[..INDEX], o)
    ensures var p := if i < PARTITION / SUBSECTOR then o else Blanked(o);
            Weathered(s, t, o, p) && Good(t.mem[..INDEX], p)
  {
    hide Good, Did, Splice, Planned, Within, Weathered, Settled, Contents;
    OneWiped(s, i, t);
    RangeErased(s, i, 1, t);
    SpliceBelow(s.mem, i * SUBSECTOR, Blank(SUBSECTOR));
    if i < PARTITION / SUBSECTOR {
      WithinWeathers(s, t, o, o, i * SUBSECTOR, (i + 1) * SUBSECTOR);
      SpliceSameBut(s.mem[..INDEX], i * SUBSECTOR, Blank(SUBSECTOR));
      GoodElsewhere(s.mem[..INDEX], t.mem[..INDEX], o, i * SUBSECTOR, i * SUBSECTOR + SUBSECTOR);
    } else {
      BlankedGood(s.mem[..INDEX], o);
      assert EraseOps(i, 1) == [EraseOps(i, 1)[0]];
      AtOnce(s, EraseOps(i, 1)[0], t, o, Blanked(o));
    }
  }

  /** A single operation between two good states. */
  lemma AtOnce(s: Chip, op: Op, t: Chip, o: Origin, p: Origin)
    requires Settled(s.mem) && Settled(t.mem) && Did(s, [op], t) && Good(s.mem[..INDEX], o) && Good(t.mem[..INDEX], p)
    ensures Weathered(s, t, o, p)
  {
    hide Good, Contents, Run, RunTo, Did, Settled, Sound;
    DidFollows(s, [op], t);
    DidIs(s, [op], t);
    RunEnds(s.mem, [op]);
    SettledContents(s.mem);
    SettledContents(t.mem);
    forall k | 0 <= k <= |Since(s, t)|
      ensures Sound(CutAt(s, t, k)) && GoodEither(Contents(CutAt(s, t, k)), o, p)
    {
      assert k == 0 || k == 1;
    }
  }

  /** How far the erasure has come that start-up finishes: begun at `s` with the
      flash `v`, the buffer's description `b` and `r` in RAM; now `q` and `u`. */
  predicate Restoring(s: Chip, v: Disk, b: Bin, r: Ram, o: Origin, q: Ram, u: Chip) {
    var n := PARTITION / SUBSECTOR + 1;
    && State(b) == ERASING && Stored(v, Buffer) == b && s.mem[..INDEX] == v && Settled(s.mem) && Settled(u.mem)
    && r.eraseIndex == 0 && r.eraseCounter == n && r.buffer == Wrapper(b, true) && !r.backup.busy
    && if State(q.buffer.bin) == ERASING then
         && q.eraseIndex <= n && q == r.(eraseIndex := q.eraseIndex)
         && Planned(s, Wiping(q.eraseIndex), u) && u.mem[..INDEX] == Splice(v, BUFFER, Blank(q.eraseIndex * SUBSECTOR))
         && (Good(v, o) ==>
               var p := if q.eraseIndex < n then o else Blanked(o);
               Good(u.mem[..INDEX], p) && Weathered(s, u, o, p))
       else
         && q == r.(buffer := Wrapper(WithState(b, ERASED), false), eraseIndex := n)
         && Planned(s, RestoreActs(b), u) && u.mem[..INDEX] == Saving(Splice(v, BUFFER, Blank(n * SUBSECTOR)), Buffer, WithState(b, ERASED))
         && (Good(v, o) ==> Good(u.mem[..INDEX], Blanked(o)) && Weathered(s, u, o, Blanked(o)))
  }

  lemma RestoreNothing(s: Chip, v: Disk, b: Bin, o: Origin)
    requires Atomic(s, s) && Planned(s, [], s) && s.mem[..INDEX] == v && Stored(v, Buffer) == b
    ensures Good(v, o) ==> Weathered(s, s, o, o)
    ensures State(b) != ERASING ==> Restored(v) == v && Planned(s, RestoreActs(b), s)
  {
    hide Good, Weathered, Atomic, Planned, Stored;
    if Good(v, o) {
      GoodThroughout(s, s, o);
    }
  }

  lemma RestoreStarts(s: Chip, v: Disk, b: Bin, r: Ram, o: Origin, u: Chip)
    requires State(b) == ERASING && Stored(v, Buffer) == b && s.mem[..INDEX] == v && Settled(s.mem)
    requires r.eraseIndex == 0 && r.eraseCounter == PARTITION / SUBSECTOR + 1 && r.buffer == Wrapper(WithState(b, ERASING), true) && !r.backup.busy
    requires Planned(s, Setting(Buffer, b, ERASING), u) && Settled(u.mem) && Atomic(s, s)
    ensures Restoring(s, v, b, r, o, r, u)
  {
    hide Good, Weathered, Atomic, Settled, Splice, Did;
    assert WithState(b, ERASING) == b && Setting(Buffer, b, ERASING) == [] && Wiping(0) == [];
    PlannedDisk(s, [], u);
    assert Played(v, []) == v;
    SpliceIdentity(v, 0);
    NothingPlanned(s, u);
    if Good(v, o) {
      GoodThroughout(s, s, o);
    }
  }

  lemma RestoreRound(s: Chip, v: Disk, b: Bin, r: Ram, o: Origin, q: Ram, t: Chip, internal: seq<byte>, u: Chip)
    requires Restoring(s, v, b, r, o, q, t) && State(q.buffer.bin) == ERASING && EraseRoom(q) && Bounded(q, internal)
    requires Planned(t, YieldActs(q, internal, NoFault), u)
    ensures var (q', rc) := Tick(q, NoFault);
            && Restoring(s, v, b, r, o, q', u) && !q'.backup.busy && EraseRoom(q')
            && (rc != 0 <==> State(q'.buffer.bin) == ERASING)
  {
    hide Good, Weathered, Settled, Splice, Did, Planned, Saving, Stored;
    var n := PARTITION / SUBSECTOR + 1;
    assert YieldActs(q, internal, NoFault) == EraseActs(q);
    if q.eraseIndex < n {
      RestoreWipes(s, v, o, q.eraseIndex, t, u);
    } else {
      SpliceSameBut(v, BUFFER, Blank(n * SUBSECTOR));
      StoredElsewhere(v, t.mem[..INDEX], BUFFER, n * SUBSECTOR);
      RestoreSaves(s, v, b, o, t, u);
    }
  }

  lemma RestoreWipes(s: Chip, v: Disk, o: Origin, i: nat, t: Chip, u: Chip)
    requires i <= PARTITION / SUBSECTOR && Settled(t.mem) && s.mem[..INDEX] == v
    requires Planned(s, Wiping(i), t) && t.mem[..INDEX] == Splice(v, BUFFER, Blank(i * SUBSECTOR))
    requires Planned(t, [Wipe(i, 1)], u)
    requires Good(v, o) ==> Good(t.mem[..INDEX], o) && Weathered(s, t, o, o)
    ensures Settled(u.mem) && Planned(s, Wiping(i + 1), u) && u.mem[..INDEX] == Splice(v, BUFFER, Blank((i + 1) * SUBSECTOR))
    ensures Good(v, o) ==>
              var p := if i < PARTITION / SUBSECTOR then o else Blanked(o);
              Good(u.mem[..INDEX], p) && Weathered(s, u, o, p)
  {
    hide Good, Weathered, Settled, Splice, Did, Planned;
    PlannedBoth(s, Wiping(i), t, [Wipe(i, 1)], u);
    assert Wiping(i) + [Wipe(i, 1)] == Wiping(i + 1);
    PlannedDisk(t, [Wipe(i, 1)], u);
    OneWiped(t, i, u);
    SpliceBelow(t.mem, i * SUBSECTOR, Blank(SUBSECTOR));
    SpliceTwice(v, BUFFER, Blank(i * SUBSECTOR), Blank(SUBSECTOR));
    assert Blank(i * SUBSECTOR) + Blank(SUBSECTOR) == Blank((i + 1) * SUBSECTOR);
    if Good(v, o) {
      WipeWeathers(t, i, u, o);
      var p := if i < PARTITION / SUBSECTOR then o else Blanked(o);
      WeatheredEither(s, t, o, p);
      WeatheredBoth(s, t, u, o, p);
    }
  }

  lemma RestoreSaves(s: Chip, v: Disk, b: Bin, o: Origin, t: Chip, u: Chip)
    requires State(b) == ERASING && Settled(t.mem) && s.mem[..INDEX] == v && Stored(t.mem[..INDEX], Buffer) == b
    requires Planned(s, Wiping(PARTITION / SUBSECTOR + 1), t) && Planned(t, [Writing(Buffer, WithState(b, ERASED))], u)
    requires Good(v, o) ==> Good(t.mem[..INDEX], Blanked(o)) && Weathered(s, t, o, Blanked(o))
    ensures Settled(u.mem) && Planned(s, RestoreActs(b), u) && u.mem[..INDEX] == Saving(t.mem[..INDEX], Buffer, WithState(b, ERASED))
    ensures Good(v, o) ==> Good(u.mem[..INDEX], Blanked(o)) && Weathered(s, u, o, Blanked(o))
  {
    hide Good, Weathered, Settled, Did, Planned, Stored, Splice, Atomic, SafeToSave;
    var done, p := WithState(b, ERASED), Blanked(o);
    PlannedBoth(s, Wiping(PARTITION / SUBSECTOR + 1), t, [Writing(Buffer, done)], u);
    OneSaved(t, Buffer, done, u);
    if Good(v, o) {
      FlagIsDown(t.mem[..INDEX], done, p);
      SavingGood(t.mem[..INDEX], Buffer, done, p);
      GoodThroughout(t, u, p);
      WeatheredEither(t, u, p, o);
      WeatheredBoth(s, t, u, o, p);
    }
  }

  lemma OneSaved(s: Chip, c: Component, b: Bin, t: Chip)
    requires Settled(s.mem) && Planned(s, [Writing(c, b)], t)
    ensures Atomic(s, t) && Settled(t.mem) && t.mem[..INDEX] == Saving(s.mem[..INDEX], c, b)
  {
    hide Planned, Did, Atomic, SecureWriteOps, Settled, Splice;
    OnePlanned(s, Writing(c, b), t);
    SecureIsAtomic(s, Place(c), b, t);
    AtomicSettled(s, t);
  }

  lemma RestoreEnds(s: Chip, v: Disk, b: Bin, r: Ram, o: Origin, q: Ram, u: Chip)
    requires Restoring(s, v, b, r, o, q, u) && State(q.buffer.bin) != ERASING && Stored(v, Buffer) == b
    requires forall c | c != Buffer :: Stored(v, c) == r.Get(c).bin
    ensures u.mem[..INDEX] == Restored(v) && Synced(q, Restored(v)) && Planned(s, RestoreActs(b), u)
    ensures q == r.(buffer := Wrapper(WithState(b, ERASED), false), eraseIndex := PARTITION / SUBSECTOR + 1)
    ensures Good(v, o) ==> Good(u.mem[..INDEX], Blanked(o)) && Weathered(s, u, o, Blanked(o))
  {
    hide Good, Weathered, Settled, Planned, Stored, Splice, Saving;
    var n := (PARTITION / SUBSECTOR + 1) * SUBSECTOR;
    var w := Splice(v, BUFFER, Blank(n));
    SpliceSameBut(v, BUFFER, Blank(n));
    StoredElsewhere(v, w, BUFFER, n);
    SavingStores(w, Buffer, WithState(b, ERASED));
    WithStateMeta(b, ERASED);
  }

  /** A power cut during an erasure costs the backup: finishing the erasure at
      start-up reaches one subsector past the buffer, into the backup partition.
      The backup survives exactly when no erasure was under way, there was no
      valid backup, or its first subsector was blank anyway. */
  lemma RestoreKeepsBackup(v: Disk, o: Origin)
    requires Durable(v, o)
    ensures Durable(Restored(v), o) <==>
              || State(Stored(v, Buffer)) != ERASING
              || State(Stored(v, Backup)) != VALID
              || forall i | 0 <= i < |o.image| && i < SUBSECTOR :: o.image[i] == 0xFF
  {
    hide Le32, Splice, Saving, Stored, Restored;
    if State(Stored(v, Buffer)) == ERASING {
      RestoredStores(v);
      if State(Stored(v, Backup)) == VALID {
        var n, w := Size(Stored(v, Backup)), Restored(v);
        var image := w[BACKUP..BACKUP + n];
        RestoredImage(v, n);
        if image == o.image {
          forall i | 0 <= i < |o.image| && i < SUBSECTOR
            ensures o.image[i] == 0xFF
          {
            assert image[i] == 0xFF;
          }
        }
      }
    } else {
      NotRestored(v);
    }
  }

  lemma NotRestored(v: Disk)
    requires State(Stored(v, Buffer)) != ERASING
    ensures Restored(v) == v
  {
    hide Stored;
  }

  /** The first subsector of the backup is blank then, the rest as it was. */
  lemma RestoredImage(v: Disk, n: nat)
    requires State(Stored(v, Buffer)) == ERASING && n <= PARTITION
    ensures var image, was := Restored(v)[BACKUP..BACKUP + n], v[BACKUP..BACKUP + n];
            forall i | 0 <= i < n :: image[i] == if i < SUBSECTOR then 0xFF else was[i]
  {
    hide Splice, Saving, Stored, Restored;
    var total, w := (PARTITION / SUBSECTOR + 1) * SUBSECTOR, Restored(v);
    var u := Splice(v, BUFFER, Blank(total));
    RestoredStores(v);
    SameSlices(w, u, CONFIG, BACKUP, BACKUP + n);
    var image, was := u[BACKUP..BACKUP + n], v[BACKUP..BACKUP + n];
    forall i | 0 <= i < n
      ensures image[i] == if i < SUBSECTOR then 0xFF else was[i]
    {
      SpliceAt(v, BUFFER, Blank(total), BACKUP + i);
    }
  }

  lemma RestoredStores(v: Disk)
    requires State(Stored(v, Buffer)) == ERASING
    ensures Stored(Restored(v), Backup) == Stored(v, Backup)
    ensures Restored(v)[..CONFIG] == Splice(v, BUFFER, Blank((PARTITION / SUBSECTOR + 1) * SUBSECTOR))[..CONFIG]
  {
    hide Splice, Saving, Stored;
    var u := Splice(v, BUFFER, Blank((PARTITION / SUBSECTOR + 1) * SUBSECTOR));
    SavingStores(u, Buffer, WithState(Stored(v, Buffer), ERASED));
    SpliceSameBut(v, BUFFER, Blank((PARTITION / SUBSECTOR + 1) * SUBSECTOR));
    StoredElsewhere(v, u, BUFFER, (PARTITION / SUBSECTOR + 1) * SUBSECTOR);
  }

  /** Such a loss happens: a one-byte backup, and power fails during an erasure. */
  lemma RestoreLosesBackup() returns (v: Disk, o: Origin)
    ensures Good(v, o) && State(Stored(v, Backup)) == VALID && !Durable(Restored(v), o)
  {
    hide Splice, Saving, Stored, Le32;
    var zeros: Bin := seq(STRUCT, _ => 0);
    var none: Disk := seq(INDEX, _ => 0);
    var description := WithState(WithSize(zeros, 1), VALID);
    OneByte(zeros);
    var u := Saving(none, Buffer, WithState(zeros, ERASING));
    v := Saving(u, Backup, description);
    o := Origin(Meta(description), [0]);
    SavingStores(none, Buffer, WithState(zeros, ERASING));
    SavingStores(u, Backup, description);
    ZeroFlag(none);
    SameSlices(v, u, CONFIG, BACKUP, BACKUP + 1);
    SameSlices(u, none, CONFIG, BACKUP, BACKUP + 1);
    RestoreKeepsBackup(v, o);
    assert o.image[0] == 0;
  }

  lemma OneByte(zeros: Bin)
    ensures var b := WithState(WithSize(zeros, 1), VALID); Size(b) == 1 && State(b) == VALID
  {
    var one := ToLe32(1);
    assert Splice(zeros, 0, one)[0..4] == one;
    WithStateMeta(WithSize(zeros, 1), VALID);
  }

  lemma ZeroFlag(v: Disk)
    requires forall i | CONFIG <= i < CONFIG + 4 :: v[i] == 0
    ensures Flag(v) == 0
  {
    assert v[CONFIG..CONFIG + 4] == [0, 0, 0, 0];
  }

  lemma SpliceIdentity(v: Disk, n: nat)
    requires n <= INDEX && v[..n] == Blank(n)
    ensures Splice(v, BUFFER, Blank(n)) == v
  {
  }

  /** The erasure set up for a size stays in the buffer partition exactly when
      the size is below that of the partition. */
  lemma ErasureFits(size: nat)
    ensures (size / SUBSECTOR + 1) * SUBSECTOR > size
    ensures (size / SUBSECTOR + 1) * SUBSECTOR <= PARTITION <==> size < PARTITION
    ensures (size / SUBSECTOR + 1) * SUBSECTOR <= CONFIG <==> size < CONFIG
  {
    assert PARTITION == 512 * SUBSECTOR;
  }

  lemma FlagDown(v: Disk, b: Bin, o: Origin)
    requires Flag(v) == 0
    ensures SafeToSave(v, Buffer, b, o)
  {
  }

  lemma FlagIsDown(v: Disk, b: Bin, o: Origin)
    requires Good(v, o) && State(Stored(v, Buffer)) == ERASING
    ensures SafeToSave(v, Buffer, b, o)
  {
  }

  lemma NotErasing(v: Disk, b: Bin, o: Origin)
    requires State(b) != ERASING && State(b) != ERASED
    ensures SafeToSave(v, Buffer, b, o)
  {
  }

  /** Whole subsectors have been erased. */
  lemma RangeErased(s: Chip, start: nat, counter: nat, t: Chip)
    requires (start + counter) * SUBSECTOR <= INDEX && Settled(s.mem)
    requires Did(s, EraseOps(start, counter), t) && t.mem == Splice(s.mem, start * SUBSECTOR, Blank(counter * SUBSECTOR))
    ensures Within(s, t, start * SUBSECTOR, (start + counter) * SUBSECTOR) && Settled(t.mem)
    ensures t.mem[..INDEX] == Splice(s.mem[..INDEX], start * SUBSECTOR, Blank(counter * SUBSECTOR))
  {
    hide Run, RunTo, Contents, Sound, Accepted, ReadRecord, SameBut, Did;
    assert TouchesOnly(EraseOps(start, counter), start * SUBSECTOR, (start + counter) * SUBSECTOR);
    WriteIsWithin(s, EraseOps(start, counter), t, start * SUBSECTOR, (start + counter) * SUBSECTOR);
    SpliceBelow(s.mem, start * SUBSECTOR, Blank(counter * SUBSECTOR));
  }

  /** One more subsector of the buffer is blank. */
  lemma ErasedMore(r: Ram, v: Disk, o: Origin, internal: seq<byte>, s: Chip, t: Chip)
    requires Inv(r, v, o, internal) && State(r.buffer.bin) == ERASING && r.eraseIndex < r.eraseCounter
    requires s.mem[..INDEX] == v && t.mem[..INDEX] == Splice(v, r.eraseIndex * SUBSECTOR, Blank(1 * SUBSECTOR))
    requires Within(s, t, r.eraseIndex * SUBSECTOR, (r.eraseIndex + 1) * SUBSECTOR)
    ensures Inv(r.(eraseIndex := r.eraseIndex + 1, buffer := r.buffer.(busy := true)), t.mem[..INDEX], o, internal)
    ensures Weathered(s, t, o, o)
  {
    hide Good, Within, Weathered, Stored, Splice;
    var at := r.eraseIndex * SUBSECTOR;
    var w := t.mem[..INDEX];
    WithinWeathers(s, t, o, o, at, at + SUBSECTOR);
    SpliceSameBut(v, at, Blank(SUBSECTOR));
    GoodElsewhere(v, w, o, at, at + SUBSECTOR);
    BlankMore(v, at);
    LowKeepsBackup(r, v, w, internal, at, at + SUBSECTOR);
  }

  lemma BlankMore(v: Disk, at: nat)
    requires at + SUBSECTOR <= INDEX && v[..at] == Blank(at)
    ensures Splice(v, at, Blank(SUBSECTOR))[..at + SUBSECTOR] == Blank(at + SUBSECTOR)
  {
    assert Splice(v, at, Blank(SUBSECTOR))[..at + SUBSECTOR] == v[..at] + Blank(SUBSECTOR);
  }

  /** A change to the buffer partition does not disturb the backup. */
  lemma LowKeepsBackup(r: Ram, v: Disk, w: Disk, internal: seq<byte>, lo: nat, hi: nat)
    requires SameBut(w, v, lo, hi) && hi <= BACKUP && BackupProgress(r, v, internal)
    ensures forall r': Ram | r'.backup == r.backup && r'.firmware == r.firmware && r'.backupIndex == r.backupIndex &&
                             r'.backupCounter == r.backupCounter :: BackupProgress(r', w, internal)
  {
    if r.backup.busy {
      var x := r.backupIndex * SUBSECTOR;
      assert w[BACKUP..BACKUP + x] == v[BACKUP..BACKUP + x];
    }
  }

  /** Bytes have been programmed without erasing. */
  lemma PartWritten(s: Chip, a: nat, d: seq<byte>, t: Chip)
    requires a + |d| <= INDEX && Settled(s.mem) && Did(s, ProgramOps(a, d), t) && t.mem == Masked(s.mem, a, d)
    ensures Within(s, t, a, a + |d|) && Settled(t.mem) && SameBut(t.mem[..INDEX], s.mem[..INDEX], a, a + |d|)
  {
    hide Run, RunTo, Contents, Sound, Accepted, ReadRecord, Did;
    ProgramTouches(a, d);
    WriteIsWithin(s, ProgramOps(a, d), t, a, a + |d|);
  }

  lemma PartKeeps(r: Ram, v: Disk, w: Disk, o: Origin, internal: seq<byte>, a: nat, n: nat)
    requires Inv(r, v, o, internal) && State(r.buffer.bin) != ERASING && SameBut(w, v, a, a + n) && a + n <= BACKUP
    ensures forall k: nat :: Inv(r.(written := k), w, o, internal)
  {
    hide Good, Stored, SameBut;
    GoodElsewhere(v, w, o, a, a + n);
    LowKeepsBackup(r, v, w, internal, a, a + n);
  }

  /** `v` with the first `x` bytes of the buffer copied into an erased stretch of
      the backup partition. */
  function Copied(v: Disk, x: nat, total: nat): Disk
    requires x <= total <= PARTITION
  {
    Splice(v, BACKUP, v[..x] + Blank(total - x))
  }

  lemma CopiedNothing(v: Disk, total: nat)
    requires total <= PARTITION
    ensures Copied(v, 0, total) == Splice(v, BACKUP, Blank(total))
  {
    assert v[..0] + Blank(total) == Blank(total);
  }

  /** The erasure covers every page that will be copied. */
  lemma BackupErasure(n: nat)
    ensures BACKUP / SUBSECTOR * SUBSECTOR == BACKUP
    ensures (BACKUP + n) / SUBSECTOR - BACKUP / SUBSECTOR + 1 == n / SUBSECTOR + 1
    ensures var pages, total := n / PAGE + (if n % PAGE != 0 then 1 else 0), (n / SUBSECTOR + 1) * SUBSECTOR;
            n <= pages * PAGE <= total && (n < PARTITION ==> total <= PARTITION)
  {
    var q := n / SUBSECTOR;
    assert BACKUP == 512 * SUBSECTOR;
    assert q * SUBSECTOR <= n < q * SUBSECTOR + SUBSECTOR;
    assert q * SUBSECTOR == q * PAGES * PAGE;
    assert n / PAGE < (q + 1) * PAGES;
  }

  lemma CopiedAll(v: Disk, n: nat, x: nat, total: nat)
    requires n <= x <= total <= PARTITION
    ensures Copied(v, x, total)[BACKUP..BACKUP + n] == v[BUFFER..BUFFER + n]
    ensures SameBut(Copied(v, x, total), v, BACKUP, BACKUP + PARTITION)
  {
    SpliceSlice(v, BACKUP, v[..x] + Blank(total - x), BACKUP, BACKUP + n);
    assert (v[..x] + Blank(total - x))[0..n] == v[0..n];
  }

  /** The buffer reads as before while the backup partition is being filled. */
  lemma PageUnread(v: Disk, w: Disk, x: nat, total: nat)
    requires x + PAGE <= total <= PARTITION && w == Copied(v, x, total)
    ensures w[BUFFER + x..BUFFER + x + PAGE] == v[x..x + PAGE]
  {
    SpliceSlice(v, BACKUP, v[..x] + Blank(total - x), x, x + PAGE);
  }

  lemma PageCopied(v: Disk, f: Image, x: nat, total: nat, d: seq<byte>)
    requires x + PAGE <= total <= PARTITION && f[..INDEX] == Copied(v, x, total) && d == v[x..x + PAGE]
    ensures Masked(f, BACKUP + x, d)[..INDEX] == Copied(v, x + PAGE, total)
  {
    hide Masked, And;
    var c := v[..x] + Blank(total - x);
    SameSlices(f, Copied(v, x, total), INDEX, BACKUP + x, BACKUP + x + PAGE);
    SpliceSlice(v, BACKUP, c, BACKUP + x, BACKUP + x + PAGE);
    assert c[x..x + PAGE] == Blank(PAGE);
    MaskedErased(f, BACKUP + x, d);
    SpliceBelow(f, BACKUP + x, d);
    assert Splice(c, x, d) == v[..x + PAGE] + Blank(total - x - PAGE);
    SpliceInside(v, BACKUP, c, x, d);
  }

  /** The description saved last makes the copied image a durable backup. */
  lemma UpdatePublishes(v: Disk, v1: Disk, v2: Disk, was: Bin, src: Bin, b: Bin, p: Origin)
    requires Size(src) < PARTITION && b == WithState(src, VALID)
    requires v1 == Saving(v, Backup, WithState(was, INVALID)) && SameBut(v2, v1, BACKUP, BACKUP + PARTITION)
    requires v2[BACKUP..BACKUP + Size(src)] == v1[BUFFER..BUFFER + Size(src)]
    requires p == Origin(Meta(src), v[BUFFER..BUFFER + Size(src)])
    ensures SafeToSave(v2, Backup, b, p)
    ensures var w := Saving(v2, Backup, b);
            && w[BACKUP..BACKUP + Size(src)] == p.image && w[..BACKUP] == v[..BACKUP] && Size(b) == Size(src)
            && w[BACKUP + PARTITION..] == Saving(v, Backup, b)[BACKUP + PARTITION..]
  {
    hide Le32;
    var w, n := Saving(v2, Backup, b), Size(src);
    WithStateMeta(src, VALID);
    SavingStores(v, Backup, WithState(was, INVALID));
    SameSlices(v1, v, CONFIG, 0, n);
    SavingStores(v2, Backup, b);
    SameSlices(w, v2, CONFIG, BACKUP, BACKUP + n);
    SameSlices(w, v2, CONFIG, 0, BACKUP);
    SameSlices(v1, v, CONFIG, 0, BACKUP);
    assert v2[0..BACKUP] == v1[0..BACKUP];
    assert w[..BACKUP] == w[0..BACKUP] && v[..BACKUP] == v[0..BACKUP];
  }

  lemma EraseUndisturbed(r: Ram, v: Disk, w: Disk)
    requires EraseProgress(r, v) && w[..BACKUP] == v[..BACKUP]
    ensures forall r': Ram | r'.buffer == r.buffer && r'.eraseIndex == r.eraseIndex && r'.eraseCounter == r.eraseCounter ::
              EraseProgress(r', w)
  {
    if State(r.buffer.bin) == ERASING {
      SameSlices(v, w, BACKUP, 0, r.eraseIndex * SUBSECTOR);
      assert v[..r.eraseIndex * SUBSECTOR] == v[0..r.eraseIndex * SUBSECTOR];
      assert w[..r.eraseIndex * SUBSECTOR] == w[0..r.eraseIndex * SUBSECTOR];
    }
  }

  /** A whole subsector has been rewritten. */
  lemma BlockWritten(s: Chip, a: nat, d: seq<byte>, t: Chip)
    requires a % SUBSECTOR == 0 && |d| == SUBSECTOR && a + SUBSECTOR <= INDEX && Settled(s.mem)
    requires Did(s, WriteOps(s.mem, a, d), t) && t.mem == Splice(s.mem, a, d)
    ensures Within(s, t, a, a + SUBSECTOR) && Settled(t.mem) && t.mem[..INDEX] == Splice(s.mem[..INDEX], a, d)
  {
    hide Run, RunTo, TouchesOnly, SubsectorOps, Contents, Sound, Accepted, ReadRecord, SameBut, Did;
    AlignedWrite(s.mem, a, d);
    SubsectorTouches(a, d);
    WriteIsWithin(s, WriteOps(s.mem, a, d), t, a, a + SUBSECTOR);
    SpliceBelow(s.mem, a, d);
  }

  class BinManager {
    const extmem: ExtMem
    const internal: seq<byte> // the firmware partition of the internal flash
    var bootloader: Wrapper
    var firmware: Wrapper
    var backup: Wrapper
    var buffer: Wrapper
    var backupIndex: nat
    var backupCounter: nat
    var eraseIndex: nat
    var eraseCounter: nat
    var written: nat
    ghost var origin: Origin // what the persisted backup was copied from

    function Memory(): Ram
      reads this
    {
      Ram(bootloader, firmware, backup, buffer, backupIndex, backupCounter, eraseIndex, eraseCounter, written)
    }

    ghost function Chip(): Chip
      reads extmem.extflash
    {
      extmem.extflash.State()
    }

    function Disk(): Disk
      reads extmem.extflash
    {
      extmem.extflash.mem[..INDEX]
    }

    ghost predicate Ready()
      reads extmem.extflash
    {
      extmem.Valid() && |internal| == FIRMWARE_SIZE && Settled(extmem.extflash.mem)
    }

    ghost predicate Valid()
      reads this, extmem.extflash
    {
      Ready() && Inv(Memory(), Disk(), origin, internal)
    }

    /** Start-up: loads the descriptions, repairs blank or impossible ones, and
        finishes an interrupted erasure. Wherever that is cut, and when it is done,
        both promises are kept; after an erasure the backup's first subsector is
        blank. */
    constructor Init(e: ExtMem, i: seq<byte>, ghost o: Origin)
      requires e.Valid() && Settled(e.extflash.mem) && |i| == FIRMWARE_SIZE
      modifies e.extflash, e.scratch
      ensures extmem == e && internal == i && Ready()
      ensures Disk() == Restored(AllFixed(old(e.extflash.mem[..INDEX]))) && Memory() == BootRam(old(e.extflash.mem[..INDEX]))
      ensures Planned(old(e.extflash.State()), BootActs(old(e.extflash.mem[..INDEX])), Chip())
      ensures var v := old(e.extflash.mem[..INDEX]);
              && origin == (if State(Stored(v, Buffer)) == ERASING then Blanked(o) else o)
              && (Good(v, o) ==> Valid() && Weathered(old(e.extflash.State()), Chip(), o, origin))
    {
      hide Weathered, Good, Settled, Did, Stored, AllFixed, Restored, Planned, PlanOps, Played, RestoreActs, AllFixActs;
      extmem := e;
      internal := i;
      origin := o;
      bootloader := Wrapper(Blank(STRUCT), false);
      firmware := Wrapper(Blank(STRUCT), false);
      backup := Wrapper(Blank(STRUCT), false);
      buffer := Wrapper(Blank(STRUCT), false);
      backupIndex, backupCounter, eraseIndex, eraseCounter, written := 0, 0, 0, 0, 0;
      new;
      ghost var s, v := Chip(), Disk();
      LoadAndFix(o);
      ghost var t := Chip();
      SameStateFixed(v);
      assert forall c :: Stored(Disk(), c) == Memory().Get(c).bin;
      RestoreProcesses();
      PlannedBoth(s, AllFixActs(v), t, RestoreActs(Fixed(Stored(v, Buffer))), Chip());
      NothingUnderWay(Memory(), Disk(), internal);
      if Good(v, o) {
        WeatheredEither(s, t, o, origin);
        WeatheredBoth(s, t, Chip(), o, origin);
      }
    }

    /** Loads the descriptions and repairs them. */
    method LoadAndFix(ghost o: Origin)
      requires Ready() && origin == o && !bootloader.busy && !firmware.busy && !backup.busy && !buffer.busy
      modifies this, extmem.extflash, extmem.scratch
      ensures Ready() && origin == o
      ensures Disk() == AllFixed(old(Disk())) && Synced(Memory(), Disk())
      ensures Good(old(Disk()), o) ==> Good(Disk(), o) && Weathered(old(Chip()), Chip(), o, o)
      ensures Planned(old(Chip()), AllFixActs(old(Disk())), Chip())
      ensures Memory() == old(Memory()).(bootloader := Wrapper(Fixed(Stored(old(Disk()), Bootloader)), false),
                                         firmware := Wrapper(Fixed(Stored(old(Disk()), Firmware)), false),
                                         backup := Wrapper(Fixed(Stored(old(Disk()), Backup)), false),
                                         buffer := Wrapper(Fixed(Stored(old(Disk()), Buffer)), false))
    {
      hide Weathered, Good, Saving, Settled, Did, Stored, Fixed, Atomic, Planned, PlanOps, Played;
      ghost var s, v := Chip(), Disk();
      Load(Buffer);
      Load(Backup);
      Load(Firmware);
      Load(Bootloader);
      Repair(Bootloader);
      ghost var t := Chip();
      Repair(Firmware);
      ghost var u := Chip();
      PlannedBoth(s, FixActs(v, Bootloader), t, FixActs(v, Firmware), u);
      Repair(Backup);
      ghost var w := Chip();
      PlannedBoth(s, FixActs(v, Bootloader) + FixActs(v, Firmware), u, FixActs(v, Backup), w);
      Repair(Buffer);
      PlannedBoth(s, FixActs(v, Bootloader) + FixActs(v, Firmware) + FixActs(v, Backup), w, FixActs(v, Buffer), Chip());
      if Good(v, o) {
        WeatheredBoth(s, t, u, o, o);
        WeatheredBoth(s, u, w, o, o);
        WeatheredBoth(s, w, Chip(), o, o);
      }
    }

    /** Repairs one description. */
    method Repair(c: Component)
      requires Ready() && Stored(Disk(), c) == Get(c).bin
      modifies this, extmem.extflash, extmem.scratch
      ensures Ready() && origin == old(origin)
      ensures Memory() == old(Memory()).Put(c, old(Get(c)).(bin := Fixed(old(Get(c)).bin)))
      ensures Disk() == Saving(old(Disk()), c, Fixed(old(Get(c)).bin))
      ensures forall e :: Stored(Disk(), e) == if e == c then Get(c).bin else Stored(old(Disk()), e)
      ensures Planned(old(Chip()), FixActs(old(Disk()), c), Chip())
      ensures Good(old(Disk()), origin) ==> Good(Disk(), origin) && Weathered(old(Chip()), Chip(), origin, origin)
    {
      hide Weathered, Good, Saving, Settled, Did, Stored, Fixed, Atomic, Planned, PlanOps, Played, Broken;
      ghost var s, v := Chip(), Disk();
      var rc := FixComponent(c, false);
      SavingStores(v, c, Fixed(Stored(v, c)));
      if Good(v, origin) {
        FixingGood(v, c, origin);
        GoodThroughout(s, Chip(), origin);
      }
    }

    method Load(c: Component)
      requires Ready()
      modifies this
      ensures Memory() == old(Memory()).Put(c, old(Get(c)).(bin := Stored(Disk(), c))) && origin == old(origin)
    {
      hide Splice;
      var data := new byte[STRUCT];
      ghost var was := data[..];
      extmem.ReadData(CONFIG, Place(c) - CONFIG, data, STRUCT);
      SpliceAll(was, extmem.extflash.mem[Place(c)..Place(c) + STRUCT]);
      SliceBelow(extmem.extflash.mem, Place(c), Place(c) + STRUCT);
      Put(c, Get(c).(bin := data[..]));
    }

    /** Sets a blank description, or if forced any, to the defaults, and an
        impossible state to invalid. Says whether there was anything to repair. */
    method FixComponent(c: Component, forced: bool) returns (rc: int)
      requires Ready() && Stored(Disk(), c) == Get(c).bin
      modifies this, extmem.extflash, extmem.scratch
      ensures Ready() && Atomic(old(Chip()), Chip()) && origin == old(origin)
      ensures rc == if forced || Broken(old(Get(c)).bin) then 1 else 0
      ensures var b := old(Get(c)).bin;
              rc == if forced || b[156] > 3 || (forall k | 0 <= k < STRUCT :: b[k] == 0xFF || b[k] == 0) then 1 else 0
      ensures Memory() == old(Memory()).Put(c, old(Get(c)).(bin := Repaired(old(Get(c)).bin, forced)))
      ensures Disk() == Saving(old(Disk()), c, Repaired(old(Get(c)).bin, forced))
      ensures Planned(old(Chip()), if rc == 1 then [Writing(c, Repaired(old(Get(c)).bin, forced))] else [], Chip())
    {
      hide Atomic, Saving, Settled, Did, Stored, Planned, PlanOps, Played, Empty, Defaults;
      SavingSame(Disk(), c);
      StandStill(Chip());
      PlannedNothing(Chip());
      var w := Get(c);
      EmptyIs(w.bin);
      var erase, correct := false, false;
      if !forced {
        var empty := IsEmpty(w.bin);
        if empty {
          erase := true;
        } else if State(w.bin) > ERASED {
          Put(c, w.(bin := WithState(w.bin, INVALID)));
          correct := true;
        }
      }
      if erase || forced || correct {
        if erase || forced {
          Put(c, w.(bin := Defaults(w.bin)));
        }
        SaveBinary(c);
        return 1;
      }
      return 0;
    }

    /** Is every byte either all ones or all zeros? */
    method IsEmpty(b: Bin) returns (r: bool)
      ensures r == Empty(b)
    {
      var x := 0;
      for i := 0 to STRUCT
        invariant x <= i && (x == i <==> forall k | 0 <= k < i :: b[k] == 0xFF || b[k] == 0)
      {
        if b[i] == 0xFF || b[i] == 0 {
          x := x + 1;
        }
      }
      r := x == STRUCT;
    }

    /** Finishes an erasure that a power cut interrupted, over the size of the
        whole partition, and one subsector more: the first of the backup. */
    method RestoreProcesses()
      requires Ready() && Synced(Memory(), Disk()) && !backup.busy
      modifies this, extmem.extflash, extmem.scratch
      ensures Ready() && !backup.busy && Disk() == Restored(old(Disk())) && Synced(Memory(), Disk())
      ensures old(State(buffer.bin)) != ERASING ==> Memory() == old(Memory()) && Chip() == old(Chip()) && origin == old(origin)
      ensures old(State(buffer.bin)) == ERASING ==>
                && Memory() == old(Memory()).(buffer := Wrapper(WithState(old(buffer.bin), ERASED), false),
                                              eraseIndex := PARTITION / SUBSECTOR + 1, eraseCounter := PARTITION / SUBSECTOR + 1)
                && origin == Blanked(old(origin))
      ensures Planned(old(Chip()), RestoreActs(old(buffer.bin)), Chip())
      ensures Good(old(Disk()), old(origin)) ==> Good(Disk(), origin) && Weathered(old(Chip()), Chip(), old(origin), origin)
    {
      hide Saving, Settled, Did, Splice, Stored, Yielded, Atomic, Planned, PlanOps, Played, Weathered, Good, Restoring, Tick,
        YieldActs, Restored, RestoreActs;
      ghost var s, v, o, b := Chip(), Disk(), origin, buffer.bin;
      StandStill(s);
      PlannedNothing(s);
      RestoreNothing(s, v, b, o);
      assert forall c :: Stored(v, c) == Memory().Get(c).bin;
      if State(buffer.bin) == ERASING {
        BufferErase(PARTITION);
        ghost var r := Memory();
        assert forall c | c != Buffer :: r.Get(c).bin == Stored(v, c);
        RestoreStarts(s, v, b, r, o, Chip());
        var again := true;
        while again
          invariant Ready() && !backup.busy && EraseRoom(Memory()) && origin == o && Chip().mem[..INDEX] == Disk()
          invariant Restoring(s, v, b, r, o, Memory(), Chip())
          invariant again <==> State(buffer.bin) == ERASING
          decreases Work(Memory()) + if again then 1 else 0
        {
          ghost var q, t := Memory(), Chip();
          var rc := Yield(NoFault);
          again := rc != 0;
          YieldWorks(q, t.mem[..INDEX], internal, NoFault);
          YieldedIs(q, t.mem[..INDEX], internal, NoFault);
          RestoreRound(s, v, b, r, o, q, t, internal, Chip());
        }
        RestoreEnds(s, v, b, r, o, Memory(), Chip());
        origin := Blanked(o);
      }
    }

    function Get(c: Component): Wrapper
      reads this
    {
      match c case Bootloader => bootloader case Firmware => firmware case Backup => backup case Buffer => buffer
    }

    method Put(c: Component, w: Wrapper)
      modifies this
      ensures Memory() == old(Memory()).Put(c, w) && origin == old(origin)
    {
      match c
      case Bootloader => bootloader := w;
      case Firmware => firmware := w;
      case Backup => backup := w;
      case Buffer => buffer := w;
    }

    /** Saves a description, all or nothing. */
    method SaveBinary(c: Component)
      requires Ready()
      modifies extmem.extflash, extmem.scratch
      ensures Ready() && Atomic(old(Chip()), Chip()) && Disk() == Saving(old(Disk()), c, Get(c).bin)
      ensures Planned(old(Chip()), [Writing(c, Get(c).bin)], Chip())
    {
      hide Atomic, SecureWriteOps, Did, Settled, Splice, Clean, Contents, Planned, PlanOps, Played;
      var b := Get(c).bin;
      var data := new byte[STRUCT](i requires 0 <= i < STRUCT => b[i]);
      assert data[..STRUCT] == b;
      var rc := extmem.SecureWrite(CONFIG, Place(c) - CONFIG, data, STRUCT);
      SecureIsAtomic(old(Chip()), Place(c), b, Chip());
      AtomicSettled(old(Chip()), Chip());
      PlannedOne(old(Chip()), Writing(c, b), Chip());
    }

    /** Changes the state of a component and saves it if that is a change. */
    method SetState(c: Component, val: byte)
      requires Ready() || (extmem.Valid() && State(Get(c).bin) == val)
      modifies this, extmem.extflash, extmem.scratch
      ensures old(Ready()) ==> Ready() && Atomic(old(Chip()), Chip())
      ensures origin == old(origin) && (State(old(Get(c)).bin) == val ==> Chip() == old(Chip()))
      ensures Memory() == old(Memory()).Put(c, old(Get(c)).(bin := WithState(old(Get(c)).bin, val)))
      ensures if State(old(Get(c)).bin) == val then Disk() == old(Disk()) else Disk() == Saving(old(Disk()), c, Get(c).bin)
      ensures Stored(old(Disk()), c) == old(Get(c)).bin ==> Disk() == Saving(old(Disk()), c, Get(c).bin)
      ensures Planned(old(Chip()), Setting(c, old(Get(c)).bin, val), Chip())
    {
      hide Atomic, Did, Settled, Saving, Planned, PlanOps, Played;
      SavingSame(Disk(), c);
      var w := Get(c);
      if val != State(w.bin) {
        Put(c, w.(bin := WithState(w.bin, val)));
        SaveBinary(c);
      } else {
        assert WithState(w.bin, val) == w.bin;
        PlannedNothing(Chip());
        if Ready() {
          StandStill(Chip());
        }
      }
    }

    // ---- backing up the firmware ------------------------------------------

    /** Checks the firmware's size, marks the backup invalid and returns how many
        blocks there are to copy, or -2. The comparison of build ids in the source
        compares two different arrays by address and never succeeds. */
    method BackupPrepare() returns (cnt: int)
      requires Ready() && !backup.busy
      modifies this, extmem.extflash, extmem.scratch
      ensures Ready() && origin == old(origin)
      ensures firmware == old(firmware).(bin := FixedSize(old(firmware.bin)))
      ensures cnt == if Size(firmware.bin) > FIRMWARE_SIZE then -2 else Blocks(Size(firmware.bin))
      ensures Memory() == old(Memory()).(firmware := firmware,
                                         backup := if cnt == -2 then old(backup)
                                                   else old(backup).(bin := WithState(old(backup.bin), INVALID)))
      ensures Planned(old(Chip()), (if Unsized(old(firmware.bin)) then [Writing(Firmware, firmware.bin)] else []) +
                           (if cnt == -2 then [] else Setting(Backup, old(backup.bin), INVALID)), Chip())
      ensures old(Valid()) ==>
                && Valid() && Weathered(old(Chip()), Chip(), origin, origin)
                && Disk() == Saving(Saving(old(Disk()), Firmware, firmware.bin), Backup, backup.bin)
    {
      hide Weathered, Atomic, Good, SafeToSave, Saving, Settled, Did, Planned, PlanOps, Played, Inv, Setting, WithSize;
      ghost var s, valid := Chip(), Valid();
      FixedSizeIs(firmware.bin);
      StandStill(s);
      PlannedNothing(s);
      if valid {
        InSync(Memory(), Disk(), origin, internal);
      }
      if Size(firmware.bin) == 0 || Size(firmware.bin) == UNKNOWN {
        firmware := firmware.(bin := FixedSize(firmware.bin));
        SaveBinary(Firmware);
      }
      ghost var t := Chip();
      PlannedNothing(t);
      if valid {
        FirmwareSaved(old(Memory()), s, origin, internal, t);
      }
      ghost var fix: seq<Act> := if Unsized(old(firmware.bin)) then [Writing(Firmware, firmware.bin)] else [];
      if Size(firmware.bin) > FIRMWARE_SIZE {
        assert fix + [] == fix;
        return -2;
      }
      InvalidateBackup();
      PlannedBoth(s, fix, t, Setting(Backup, old(backup.bin), INVALID), Chip());
      if valid {
        WeatheredBoth(s, t, Chip(), origin, origin);
      }
      cnt := Size(firmware.bin) / SUBSECTOR;
      if Size(firmware.bin) % SUBSECTOR != 0 {
        cnt := cnt + 1;
      }
    }

    /** Marks the backup invalid, in RAM and on the flash. */
    method InvalidateBackup()
      requires Ready()
      modifies this, extmem.extflash, extmem.scratch
      ensures Ready() && origin == old(origin)
      ensures Memory() == old(Memory()).(backup := old(backup).(bin := WithState(old(backup.bin), INVALID)))
      ensures Planned(old(Chip()), Setting(Backup, old(backup.bin), INVALID), Chip())
      ensures old(Valid()) ==>
                Valid() && Weathered(old(Chip()), Chip(), origin, origin) && Disk() == Saving(old(Disk()), Backup, backup.bin)
    {
      hide Weathered, Atomic, Good, SafeToSave, Saving, Settled, Did, Planned, PlanOps, Played;
      ghost var s, valid := Chip(), Valid();
      SetState(Backup, INVALID);
      if valid {
        WithStateMeta(old(backup.bin), INVALID);
        SafeInvalid(s.mem[..INDEX], backup.bin, origin);
        InvSaved(s.mem[..INDEX], origin, internal, Backup, Memory());
        GoodThroughout(s, Chip(), origin);
      }
    }

    /** Starts backing up, unless something is in the way or there is no need: a
        valid backup, of the same build if that is to be checked. */
    method BackupStart(checkBuildId: bool) returns (rc: int)
      requires Ready()
      modifies this, extmem.extflash, extmem.scratch
      ensures Ready() && origin == old(origin)
      ensures var f, b := old(firmware.bin), old(backup.bin);
              var idle := !old(backup.busy) && !old(buffer.busy);
              var done := State(b) == VALID && (checkBuildId ==> CString(f[8..56]) == CString(b[8..56]));
              && rc in {ERROR_BUSY, ERROR_FAILED, SKIPPED, BACKUP_STARTED} && (rc == ERROR_BUSY <==> !idle)
              && (rc == SKIPPED <==> idle && State(f) == VALID && done)
              && (rc == BACKUP_STARTED <==> idle && State(f) == VALID && !done && (Size(f) <= FIRMWARE_SIZE || Size(f) == UNKNOWN))
      ensures firmware.bin[4..] == old(firmware.bin)[4..]
      ensures (Memory(), rc) == BackupStarted(old(Memory()), checkBuildId)
      ensures Planned(old(Chip()), StartingBackup(old(Memory()), checkBuildId), Chip())
      ensures old(Valid()) ==>
                && Valid() && Weathered(old(Chip()), Chip(), origin, origin)
                && Disk() == Saving(Saving(old(Disk()), Firmware, firmware.bin), Backup, backup.bin)
    {
      hide Inv, Weathered, Atomic, Good, SafeToSave, Saving, Settled, Did, BuildId, Planned, BackupStarted, StartingBackup;
      StandStill(Chip());
      PlannedNothing(Chip());
      if Valid() {
        InSync(Memory(), Disk(), origin, internal);
        GoodThroughout(Chip(), Chip(), origin);
      }
      Refused(Memory(), checkBuildId);
      StartsWhen(Memory(), checkBuildId);
      if backup.busy {
        return ERROR_BUSY;
      }
      if buffer.busy {
        return ERROR_BUSY;
      }
      if State(firmware.bin) != VALID {
        return ERROR_FAILED;
      }
      if State(backup.bin) == VALID && (!checkBuildId || BuildId(firmware.bin) == BuildId(backup.bin)) {
        return SKIPPED;
      }
      rc := Launch(checkBuildId);
    }

    /** Prepares and begins a backup that nothing is in the way of. */
    method Launch(ghost checkBuildId: bool) returns (rc: int)
      requires Ready() && !Refuses(Memory(), checkBuildId)
      modifies this, extmem.extflash, extmem.scratch
      ensures Ready() && origin == old(origin)
      ensures (Memory(), rc) == BackupStarted(old(Memory()), checkBuildId)
      ensures Planned(old(Chip()), StartingBackup(old(Memory()), checkBuildId), Chip())
      ensures old(Valid()) ==>
                && Valid() && Weathered(old(Chip()), Chip(), origin, origin)
                && Disk() == Saving(Saving(old(Disk()), Firmware, firmware.bin), Backup, backup.bin)
    {
      hide Inv, Weathered, Atomic, Good, SafeToSave, Saving, Settled, Did, BuildId, Planned, FixedSize, Blocks, StartingBackup,
        Setting;
      ghost var s, before, valid := Chip(), Memory(), Valid();
      var cnt := BackupPrepare();
      ghost var t, b := Chip(), backup.bin;
      InvalidateBackup();
      PlannedStart(s, before, checkBuildId, t, cnt, Chip());
      ghost var r := Memory();
      FixedSizeIs(before.firmware.bin);
      WithStateMeta(b, INVALID);
      assert WithState(WithState(before.backup.bin, INVALID), INVALID) == WithState(before.backup.bin, INVALID);
      if valid {
        SavingTwice(Saving(s.mem[..INDEX], Firmware, firmware.bin), Backup, b, backup.bin);
        Launched(r, Disk(), origin, internal, cnt);
        WeatheredBoth(s, t, Chip(), origin, origin);
      }
      if cnt < 0 {
        backup := backup.(busy := false);
        rc := ERROR_FAILED;
      } else {
        backupIndex := 0;
        backupCounter := cnt;
        backup := backup.(busy := true);
        rc := BACKUP_STARTED;
      }
    }

    /** What the bootloader does before it flashes a new firmware: a firmware that
        fits is backed up if there is no backup of its build. */
    method Autobackup(faultless: bool) returns (rc: int)
      requires Valid()
      modifies this, extmem.extflash, extmem.scratch
      ensures Valid() && firmware.bin[4..] == old(firmware.bin)[4..]
      ensures faultless && !old(backup.busy) && !old(buffer.busy) && State(old(firmware.bin)) == VALID
              && (Size(old(firmware.bin)) <= FIRMWARE_SIZE || Size(old(firmware.bin)) == UNKNOWN) ==>
                && State(backup.bin) == VALID && CString(backup.bin[8..56]) == CString(old(firmware.bin)[8..56])
                && Stored(Disk(), Backup) == backup.bin && !backup.busy
                && (rc == SKIPPED || (rc == BACKUP_STARTED && backup.bin == firmware.bin && Size(firmware.bin) <= FIRMWARE_SIZE &&
                                      Disk()[BACKUP..BACKUP + Size(firmware.bin)] == internal[..Size(firmware.bin)]))
    {
      hide Inv, Weathered, Good, Saving, Settled, Did, Planned, Outcome, CString, Blocks, BackupStarted, StartingBackup, Stored;
      StartsWhen(Memory(), true);
      ghost var f := firmware.bin;
      rc := BackupStart(true);
      assert firmware.bin[8..56] == firmware.bin[4..][4..52] == f[4..][4..52] == f[8..56];
      assert State(firmware.bin) == firmware.bin[4..][152] == f[4..][152] == State(f);
      if rc == BACKUP_STARTED {
        ghost var v, n, hi, e := Disk(), Size(firmware.bin), backupCounter, if State(buffer.bin) == ERASING then eraseCounter else 0;
        InProgress(Memory(), v, origin, internal);
        BlocksFit(n, 0);
        YieldWhileBusy(faultless);
        if faultless {
          OutcomeHolds(v, e, hi, internal, backup.bin, buffer.bin, n);
        }
      }
      BackupStored(Memory(), Disk(), origin, internal);
    }

    method BackupStop()
      requires Ready()
      modifies this, extmem.extflash, extmem.scratch
      ensures Ready() && origin == old(origin)
      ensures Memory() == old(Memory()).(backup := Wrapper(WithState(old(backup.bin), INVALID), false))
      ensures Planned(old(Chip()), Setting(Backup, old(backup.bin), INVALID), Chip())
      ensures old(Valid()) ==>
                Valid() && Weathered(old(Chip()), Chip(), origin, origin) && Disk() == Saving(old(Disk()), Backup, backup.bin)
    {
      hide Weathered, Atomic, Good, SafeToSave, Saving, Settled, Did, Planned, PlanOps, Played;
      InvalidateBackup();
      backup := backup.(busy := false);
    }

    /** Copies a description over that of `c`. With `copyState` the source's state
        is taken over, and everything is saved, in one go; without, the state
        becomes invalid in RAM and nothing is saved. */
    method CopyBinary(c: Component, src: Bin, copyState: bool)
      requires Ready()
      modifies this, extmem.extflash, extmem.scratch
      ensures Ready() && origin == old(origin)
      ensures Memory() == old(Memory()).Put(c, old(Get(c)).(bin := if copyState then src else WithState(src, INVALID)))
      ensures copyState ==> Atomic(old(Chip()), Chip())
      ensures copyState && State(old(Get(c)).bin) != State(src) ==> Disk() == Saving(old(Disk()), c, src)
      ensures !copyState || State(old(Get(c)).bin) == State(src) ==> Chip() == old(Chip())
      ensures Planned(old(Chip()), if copyState then CopyingState(c, old(Get(c)).bin, src) else [], Chip())
    {
      hide Atomic, Did, Settled, Saving, Planned, PlanOps, Played;
      var tmpState: byte := INVALID;
      if copyState {
        tmpState := State(Get(c).bin);
      }
      WithStateMeta(src, tmpState);
      Put(c, Get(c).(bin := WithState(src, tmpState)));
      StandStill(Chip());
      PlannedNothing(Chip());
      if copyState && tmpState != State(src) {
        SetState(c, State(src));
        assert WithState(WithState(src, tmpState), State(src)) == src;
      }
    }

    /** Copies the next block of the running firmware, or publishes the finished
        backup. `fault` says which of the two memories fails, if any. */
    method BackupFunction(fault: Fault) returns (rc: int)
      requires Ready() && Bounded(Memory(), internal)
      modifies this, extmem.extflash, extmem.scratch
      ensures Ready() && (Memory(), Disk(), rc) == BackupYielded(old(Memory()), old(Disk()), internal, fault)
      ensures Planned(old(Chip()), BackupActs(old(Memory()), internal, fault), Chip())
      ensures origin == if old(backup.busy && backupIndex == backupCounter)
                        then Origin(Meta(old(firmware.bin)), internal[..Size(old(firmware.bin))]) else old(origin)
      ensures old(Valid()) ==> Valid() && Weathered(old(Chip()), Chip(), origin, origin)
    {
      hide Weathered, Atomic, Good, SafeToSave, Saving, Settled, Did, Splice, Planned, PlanOps, Played;
      ghost var s := Chip();
      if !backup.busy {
        PlannedNothing(s);
        PlannedDisk(s, [], s);
        StandStill(s);
        if Valid() {
          GoodThroughout(s, s, origin);
        }
        return 0;
      }
      if backupIndex < backupCounter {
        BlocksFit(Size(firmware.bin), backupIndex);
        if fault == ReadFault {
          GiveUp();
          rc := -1;
        } else if fault == WriteFault {
          GiveUp();
          rc := -2;
        } else {
          CopyBlock();
          rc := 1;
        }
      } else {
        FinishBackup();
        rc := 0;
      }
      PlannedDisk(s, BackupActs(old(Memory()), internal, fault), Chip());
    }

    /** A failed backup stays marked invalid. */
    method GiveUp()
      requires Ready()
      modifies this, extmem.extflash, extmem.scratch
      ensures Ready() && origin == old(origin)
      ensures Memory() == old(Memory()).(backup := Wrapper(WithState(old(backup.bin), INVALID), false))
      ensures Planned(old(Chip()), Setting(Backup, old(backup.bin), INVALID), Chip())
      ensures old(Valid()) ==> Valid() && Weathered(old(Chip()), Chip(), origin, origin)
    {
      hide Weathered, Good, Settled, Planned, Inv;
      BackupStop();
    }

    method CopyBlock()
      requires Ready() && Bounded(Memory(), internal) && backup.busy && backupIndex < backupCounter
      modifies this, extmem.extflash, extmem.scratch
      ensures Ready() && origin == old(origin)
      ensures backupIndex == old(backupIndex) + 1 && Memory() == old(Memory()).(backupIndex := backupIndex)
      ensures old(backupIndex) * SUBSECTOR + SUBSECTOR <= FIRMWARE_SIZE
      ensures Planned(old(Chip()), [Rewrite(BACKUP + old(backupIndex) * SUBSECTOR,
                                      internal[old(backupIndex) * SUBSECTOR..old(backupIndex) * SUBSECTOR + SUBSECTOR])], Chip())
      ensures old(Valid()) ==> Valid() && Weathered(old(Chip()), Chip(), origin, origin)
    {
      hide Weathered, Good, Did, Splice, Within, WriteOps, Settled, Planned, PlanOps, Played, Inv;
      BlocksFit(Size(firmware.bin), backupIndex);
      var at := backupIndex * SUBSECTOR;
      var fwbuffer := new byte[SUBSECTOR](i requires 0 <= i < SUBSECTOR => internal[at + i]);
      ghost var s, d, valid := Chip(), internal[at..at + SUBSECTOR], Valid();
      assert fwbuffer[..SUBSECTOR] == d;
      var rc := extmem.WriteData(BACKUP, at, fwbuffer, SUBSECTOR, true);
      PlannedOne(s, Rewrite(BACKUP + at, d), Chip());
      PlannedDisk(s, [Rewrite(BACKUP + at, d)], Chip());
      if valid {
        BlockCopied(old(Memory()), s, origin, internal, at, d, Chip());
      }
      backupIndex := backupIndex + 1;
    }

    method FinishBackup()
      requires Ready() && Bounded(Memory(), internal) && backup.busy && backupIndex == backupCounter
      modifies this, extmem.extflash, extmem.scratch
      ensures Ready()
      ensures Memory() == old(Memory()).(backup := Wrapper(WithState(old(firmware.bin), VALID), false))
      ensures Size(firmware.bin) <= |internal| && origin == Origin(Meta(firmware.bin), internal[..Size(firmware.bin)])
      ensures Planned(old(Chip()), CopyingState(Backup, old(backup.bin), firmware.bin) + Setting(Backup, firmware.bin, VALID), Chip())
      ensures old(Valid()) ==> Valid() && Weathered(old(Chip()), Chip(), origin, origin)
    {
      hide Weathered, Atomic, Good, SafeToSave, Saving, Settled, Did, Planned, PlanOps, Played;
      ghost var s, v, valid, o0 := Chip(), Disk(), Valid(), origin;
      ghost var o := Origin(Meta(firmware.bin), internal[..Size(firmware.bin)]);
      CopyBinary(Backup, firmware.bin, true);
      ghost var t := Chip();
      SetState(Backup, VALID);
      PlannedBoth(s, CopyingState(Backup, old(backup.bin), firmware.bin), t, Setting(Backup, firmware.bin, VALID), Chip());
      backup := backup.(busy := false);
      origin := o;
      if valid {
        InvalidIsGood(v, o0, o);
        WholeBackup(old(Memory()), v, internal);
        SameState(firmware.bin, VALID);
        InvSaved(v, o, internal, Backup, Memory());
        GoodThroughout(s, t, o);
        GoodThroughout(t, Chip(), o);
        WeatheredBoth(s, t, Chip(), o, o);
      }
    }

    // ---- erasing and filling the buffer ------------------------------------

    /** Erases the next subsector of the buffer, or marks it erased. */
    method EraseFunction() returns (rc: int)
      requires Ready() && EraseRoom(Memory())
      modifies this, extmem.extflash, extmem.scratch
      ensures Ready() && origin == old(origin)
      ensures (Memory(), Disk(), rc) == EraseYielded(old(Memory()), old(Disk()))
      ensures old(Valid()) ==> Valid() && Weathered(old(Chip()), Chip(), origin, origin)
      ensures Planned(old(Chip()), EraseActs(old(Memory())), Chip())
    {
      hide Weathered, Good, SafeToSave, Saving, Settled, Did, Splice, Atomic, Within, Follows, Planned, PlanOps, Played, EraseYielded;
      ghost var s, v, valid := Chip(), Disk(), Valid();
      StandStill(s);
      EraseYields(Memory(), v);
      PlannedNothing(s);
      if valid {
        GoodThroughout(s, s, origin);
      }
      if State(buffer.bin) != ERASING {
        return 0;
      }
      if eraseIndex < eraseCounter {
        extmem.EraseSubsectors(eraseIndex, 1);
        PlannedOne(s, Wipe(eraseIndex, 1), Chip());
        RangeErased(s, eraseIndex, 1, Chip());
        eraseIndex := eraseIndex + 1;
        buffer := buffer.(busy := true);
        if valid {
          ErasedMore(old(Memory()), v, origin, internal, s, Chip());
        }
        return 1;
      }
      SetState(Buffer, ERASED);
      buffer := buffer.(busy := false);
      if valid {
        FlagIsDown(v, buffer.bin, origin);
        InvSaved(v, origin, internal, Buffer, Memory());
        GoodThroughout(s, Chip(), origin);
      }
      return 0;
    }

    /** One round of the background work. */
    method Yield(fault: Fault) returns (rc: int)
      requires Ready() && Bounded(Memory(), internal) && EraseRoom(Memory())
      modifies this, extmem.extflash, extmem.scratch
      ensures Ready() && (Memory(), Disk(), rc) == Yielded(old(Memory()), old(Disk()), internal, fault)
      ensures origin == if old(backup.busy && backupIndex == backupCounter)
                        then Origin(Meta(old(firmware.bin)), internal[..Size(old(firmware.bin))]) else old(origin)
      ensures Planned(old(Chip()), YieldActs(old(Memory()), internal, fault), Chip())
      ensures old(Valid()) ==> Valid() && Weathered(old(Chip()), Chip(), origin, origin)
    {
      hide Weathered, Good, Saving, Settled, Did, Splice, Yielded, BackupYielded, EraseYielded, Planned, PlanOps, Played, BackupActs,
        EraseActs, Inv;
      ghost var s, valid := Chip(), Valid();
      YieldsBoth(Memory(), Disk(), internal, fault);
      rc := BackupFunction(fault);
      ghost var t := Chip();
      EraseActsSame(old(Memory()), Memory());
      var more := EraseFunction();
      rc := rc + more;
      PlannedBoth(s, BackupActs(old(Memory()), internal, fault), t, EraseActs(old(Memory())), Chip());
      if valid {
        WeatheredBoth(s, t, Chip(), origin, origin);
      }
    }

    /** The loop `do yield while (rc)`. It ends whatever fails. Without a fault the
        erasure and the backup are then done, and nothing else has changed. */
    method YieldWhileBusy(faultless: bool)
      requires Valid()
      modifies this, extmem.extflash, extmem.scratch
      ensures Valid() && Weathered(old(Chip()), Chip(), old(origin), origin) && firmware == old(firmware)
      ensures faultless ==>
                && backup == (if old(backup.busy) then Wrapper(old(firmware.bin), false) else old(backup))
                && buffer.bin == (if old(State(buffer.bin)) == ERASING then WithState(old(buffer.bin), ERASED) else old(buffer.bin))
                && (old(backup.busy) ==> old(backupCounter) * SUBSECTOR <= FIRMWARE_SIZE)
                && Disk() == Outcome(old(Disk()), if old(State(buffer.bin)) == ERASING then old(eraseCounter) else 0,
                                     if old(backup.busy) then old(backupIndex) else 0, if old(backup.busy) then old(backupCounter) else 0,
                                     internal, backup.bin, buffer.bin)
    {
      hide Weathered, Good, Saving, Settled, Did, Splice, Yielded, Planned, PlanOps, Played, Outcome, Inv;
      ghost var s, v, r, o := Chip(), Disk(), Memory(), origin;
      StandStill(s);
      InSync(r, v, o, internal);
      GoodThroughout(s, s, origin);
      AdvanceStarts(r, v, o, internal);
      var again := true;
      while again
        invariant Valid() && Weathered(s, Chip(), o, origin) && (backup.busy ==> origin == o) && firmware == r.firmware
        invariant !again && faultless ==> !backup.busy && State(buffer.bin) != ERASING
        invariant faultless ==> Advanced(r, v, internal, Memory(), Disk())
        decreases Work(Memory()) + if again then 1 else 0
      {
        ghost var t, q, w, p := Chip(), Memory(), Disk(), origin;
        var fault: Fault := *;
        if faultless {
          fault := NoFault;
        }
        InProgress(q, w, p, internal);
        var rc := Yield(fault);
        again := rc != 0;
        YieldWorks(q, w, internal, fault);
        if faultless {
          YieldAdvances(r, v, internal, q, w);
        }
        WeatheredEither(t, Chip(), origin, o);
        if origin != p {
          WeatheredEither(s, t, o, origin);
        }
        WeatheredBoth(s, t, Chip(), o, origin);
      }
      WithStateMeta(r.buffer.bin, ERASED);
    }

    /** Sets up the erasure of enough subsectors for `size` bytes. */
    method BufferErase(size: nat)
      requires Ready() && (State(buffer.bin) != ERASING || Stored(Disk(), Buffer) == buffer.bin)
      modifies this, extmem.extflash, extmem.scratch
      ensures Ready() && Atomic(old(Chip()), Chip()) && origin == old(origin)
      ensures Memory() == old(Memory()).(buffer := Wrapper(WithState(old(buffer.bin), ERASING), true),
                                         eraseIndex := 0, eraseCounter := size / SUBSECTOR + 1)
      ensures Disk() == Saving(old(Disk()), Buffer, buffer.bin)
      ensures Planned(old(Chip()), Setting(Buffer, old(buffer.bin), ERASING), Chip())
    {
      hide Atomic, Saving, Settled, Did, Planned, PlanOps, Played;
      eraseIndex := BUFFER / SUBSECTOR;
      eraseCounter := (BUFFER + size) / SUBSECTOR;
      eraseCounter := eraseCounter - BUFFER / SUBSECTOR;
      eraseCounter := eraseCounter + 1;
      SetState(Buffer, ERASING);
      buffer := buffer.(busy := true);
    }

    /** Takes over the description of the binary to come and starts erasing. The
        state copied is always invalid, so the check for an erased buffer never
        saves an erasure. */
    method BufferPrepare(bin: Bin)
      requires Ready()
      modifies this, extmem.extflash, extmem.scratch
      ensures Ready() && Atomic(old(Chip()), Chip()) && origin == old(origin)
      ensures Memory() == old(Memory()).(buffer := Wrapper(WithState(bin, ERASING), true),
                                         eraseIndex := 0, eraseCounter := Size(bin) / SUBSECTOR + 1, written := 0)
      ensures Disk() == Saving(old(Disk()), Buffer, WithState(bin, ERASING))
      ensures Planned(old(Chip()), [Writing(Buffer, WithState(bin, ERASING))], Chip())
      ensures old(Valid()) && Flag(old(Disk())) == 0 ==> Weathered(old(Chip()), Chip(), origin, origin)
      ensures old(Valid()) && Flag(old(Disk())) == 0 && Size(bin) < PARTITION ==> Valid()
    {
      hide Weathered, Good, SafeToSave, Saving, Settled, Did, Atomic, Planned, PlanOps, Played;
      ghost var valid := Valid();
      CopyBinary(Buffer, bin, false);
      WithStateMeta(bin, INVALID);
      if State(buffer.bin) != ERASED {
        BufferErase(Size(bin));
      }
      written := 0;
      assert WithState(WithState(bin, INVALID), ERASING) == WithState(bin, ERASING);
      if valid && Flag(old(Disk())) == 0 {
        FlagDown(old(Disk()), buffer.bin, origin);
        SavingGood(old(Disk()), Buffer, buffer.bin, origin);
        GoodThroughout(old(Chip()), Chip(), origin);
        ErasureFits(Size(bin));
        if Size(bin) < PARTITION {
          InvSaved(old(Disk()), origin, internal, Buffer, Memory());
        }
      }
    }

    /** Programs the next part of the upload behind the previous one, wherever on
        the chip that is. */
    method WriteBinPart(data: array<byte>, size: nat)
      requires extmem.Valid() && data != extmem.scratch && size <= data.Length && BUFFER + written + size <= SIZE
      modifies this, extmem.extflash, extmem.scratch
      ensures written == old(written) + size && Memory() == old(Memory()).(written := written) && origin == old(origin)
      ensures extmem.extflash.mem == Masked(old(extmem.extflash.mem), BUFFER + old(written), data[..size])
      ensures Did(old(Chip()), ProgramOps(BUFFER + old(written), data[..size]), Chip())
      ensures old(Ready()) && BUFFER + old(written) + size <= INDEX ==>
                Ready() && Planned(old(Chip()), [Burn(BUFFER + old(written), data[..size])], Chip())
      ensures old(Valid()) && State(buffer.bin) != ERASING && old(written) + size <= PARTITION ==>
                Valid() && Weathered(old(Chip()), Chip(), origin, origin)
    {
      hide Weathered, Good, Settled, Did, Within, Masked, ProgramOps, Planned, PlanOps, Played, Inv;
      ghost var s, v, ready, valid := Chip(), Disk(), Ready(), Valid();
      var rc := extmem.WriteData(BUFFER, written, data, size, false);
      if ready && BUFFER + written + size <= INDEX {
        PlannedOne(s, Burn(BUFFER + written, data[..size]), Chip());
        PartWritten(s, BUFFER + written, data[..size], Chip());
      }
      if valid && State(buffer.bin) != ERASING && written + size <= PARTITION {
        InvIsGood(Memory(), v, origin, internal);
        WithinWeathers(s, Chip(), origin, origin, BUFFER + written, BUFFER + written + size);
        PartKeeps(Memory(), v, Disk(), origin, internal, BUFFER + written, size);
      }
      written := written + size;
    }

    method UploadStop(forced: bool)
      requires Ready()
      modifies this, extmem.extflash, extmem.scratch
      ensures Ready() && origin == old(origin)
      ensures Memory() == old(Memory()).(buffer := Wrapper(WithState(old(buffer.bin), if forced then INVALID else VALID), false))
      ensures Planned(old(Chip()), Setting(Buffer, old(buffer.bin), if forced then INVALID else VALID), Chip())
      ensures old(Valid()) ==>
                Valid() && Weathered(old(Chip()), Chip(), origin, origin) && Disk() == Saving(old(Disk()), Buffer, buffer.bin)
    {
      hide Weathered, Good, SafeToSave, Saving, Settled, Did, Atomic, Planned, PlanOps, Played;
      ghost var valid := Valid();
      if forced {
        SetState(Buffer, INVALID);
      } else {
        SetState(Buffer, VALID);
      }
      buffer := buffer.(busy := false);
      if valid {
        NotErasing(old(Disk()), buffer.bin, origin);
        InvSaved(old(Disk()), origin, internal, Buffer, Memory());
        GoodThroughout(old(Chip()), Chip(), origin);
      }
    }

    // ---- copying the buffer over the backup --------------------------------

    /** `update_component` for the backup. */
    method UpdateBackup()
      requires Ready() && UpdateRoom(Size(buffer.bin))
      modifies this, extmem.extflash, extmem.scratch
      ensures Ready() && Memory() == old(Memory()).(backup := old(backup).(bin := WithState(old(buffer.bin), VALID)))
      ensures Planned(old(Chip()), UpdateActs(old(Memory()), old(Disk())), Chip())
      ensures old(Valid()) && Size(old(buffer.bin)) < PARTITION ==>
                && origin == Origin(Meta(old(buffer.bin)), old(Disk())[BUFFER..BUFFER + Size(old(buffer.bin))])
                && Disk()[BACKUP..BACKUP + Size(buffer.bin)] == origin.image && Disk()[..BACKUP] == old(Disk())[..BACKUP]
                && Disk()[BACKUP + PARTITION..] == Saving(old(Disk()), Backup, backup.bin)[BACKUP + PARTITION..]
                && Weathered(old(Chip()), Chip(), old(origin), origin)
                && (!old(backup.busy) ==> Valid())
    {
      hide Weathered, Good, SafeToSave, Saving, Settled, Did, Atomic, FlagSafe, Splice, Planned, PlanOps, Played, CopyingActs, UpdateActs;
      ghost var s, v, n, o := Chip(), Disk(), Size(buffer.bin), origin;
      ghost var small := Valid() && n < PARTITION;
      ghost var p := if n < PARTITION then Origin(Meta(buffer.bin), v[BUFFER..BUFFER + n]) else o;
      SetState(Backup, INVALID);
      ghost var t, v1 := Chip(), Disk();
      if small {
        SafeInvalid(v, backup.bin, o);
        SavingGood(v, Backup, backup.bin, o);
        SavingStores(v, Backup, backup.bin);
        GoodThroughout(s, t, o);
      }
      var cnt := EraseAndCopy();
      ghost var u, v2 := Chip(), Disk();
      if small {
        WeatheredBoth(s, t, u, o, o);
        WeatheredEither(s, u, o, p);
        UpdatePublishes(v, v1, v2, old(backup.bin), buffer.bin, WithState(buffer.bin, VALID), p);
      }
      PublishUpdate(p);
      if small {
        WeatheredEither(u, Chip(), p, o);
        WeatheredBoth(s, u, Chip(), o, p);
        if !old(backup.busy) {
          SavingStores(v2, Backup, backup.bin);
          StoredElsewhere(v1, v2, BACKUP, BACKUP + PARTITION);
          EraseUndisturbed(old(Memory()), v, Disk());
        }
      }
      PlannedUpdate(old(Memory()), s, t, u, Chip());
    }

    /** Describes the backup as the buffer is described, and marks it valid. */
    method PublishUpdate(ghost p: Origin)
      requires Ready()
      modifies this, extmem.extflash, extmem.scratch
      ensures Ready() && origin == p
      ensures Memory() == old(Memory()).(backup := old(backup).(bin := WithState(old(buffer.bin), VALID)))
      ensures Disk() == Saving(old(Disk()), Backup, backup.bin)
      ensures Planned(old(Chip()), [Writing(Backup, backup.bin)], Chip())
      ensures old(Good(Disk(), origin) && State(Stored(Disk(), Backup)) != VALID && SafeToSave(Disk(), Backup, WithState(buffer.bin, VALID), p)) ==>
                Good(Disk(), p) && Weathered(old(Chip()), Chip(), p, p)
    {
      hide Weathered, Good, SafeToSave, Saving, Settled, Did, Atomic, Planned, PlanOps, Played;
      ghost var v, o := Disk(), origin;
      ghost var good := Good(v, o) && State(Stored(v, Backup)) != VALID && SafeToSave(v, Backup, WithState(buffer.bin, VALID), p);
      WithStateMeta(buffer.bin, INVALID);
      CopyBinary(Backup, buffer.bin, false);
      assert WithState(WithState(buffer.bin, INVALID), VALID) == WithState(buffer.bin, VALID);
      assert Setting(Backup, backup.bin, VALID) == [Writing(Backup, WithState(buffer.bin, VALID))];
      SetState(Backup, VALID);
      origin := p;
      if good {
        InvalidIsGood(v, o, p);
        SavingGood(v, Backup, backup.bin, p);
        GoodThroughout(old(Chip()), Chip(), p);
      }
    }

    /** Erases the backup partition as far as needed and copies the buffer there,
        page by page. */
    method EraseAndCopy() returns (cnt: nat)
      requires Ready() && UpdateRoom(Size(buffer.bin))
      modifies extmem.extflash, extmem.scratch
      ensures Ready() && Planned(old(Chip()), CopyingActs(old(Disk()), Size(buffer.bin)), Chip())
      ensures Copyable(old(Disk()), origin, Size(buffer.bin)) ==>
                && Weathered(old(Chip()), Chip(), origin, origin) && Good(Disk(), origin)
                && Disk()[BACKUP..BACKUP + Size(buffer.bin)] == old(Disk())[BUFFER..BUFFER + Size(buffer.bin)]
                && SameBut(Disk(), old(Disk()), BACKUP, BACKUP + PARTITION)
    {
      hide Planned, CopyActs, Played, PlanOps, Weathered, Good, Settled, Did, Splice, SameBut, Stored, Within, Copied, Copyable, Copying;
      ghost var s, v, n := Chip(), Disk(), Size(buffer.bin);
      ghost var total := (n / SUBSECTOR + 1) * SUBSECTOR;
      var begin := BACKUP / SUBSECTOR;
      var counter := (BACKUP + Size(buffer.bin)) / SUBSECTOR - BACKUP / SUBSECTOR + 1;
      BackupErasure(n);
      extmem.EraseSubsectors(begin, counter);
      ghost var t, w := Chip(), Disk();
      PlannedOne(s, Wipe(begin, counter), t);
      PlannedDisk(s, [Wipe(begin, counter)], t);
      PlannedNothing(t);
      if Copyable(v, origin, n) {
        BackupWiped(s, v, origin, n, t, w);
      }
      cnt := Size(buffer.bin) / PAGE;
      if Size(buffer.bin) % PAGE != 0 {
        cnt := cnt + 1;
      }
      CopyNothing(w);
      for i := 0 to cnt
        invariant Ready() && Planned(t, CopyActs(w, i), Chip())
        invariant Copyable(v, origin, n) ==> Copying(s, v, origin, i, total, Chip())
      {
        ghost var u := Chip();
        CopyPage(i);
        CopiedMore(t, i, u, Chip());
        if Copyable(v, origin, n) {
          OnePageCopied(s, v, origin, i, total, u, Chip());
        }
      }
      if Copyable(v, origin, n) {
        AllCopied(s, v, origin, n, cnt, total, Chip());
      }
      PlannedBoth(s, [Wipe(begin, counter)], t, CopyActs(w, cnt), Chip());
    }

    method CopyPage(i: nat)
      requires Ready() && BACKUP + i * PAGE + PAGE <= INDEX
      modifies extmem.extflash, extmem.scratch
      ensures Ready() && Planned(old(Chip()), [PageAct(old(Disk()), i)], Chip())
    {
      hide Settled, Did, Splice, ProgramOps, Masked, Planned, PlanOps, Played;
      ghost var s, w := Chip(), Disk();
      var page := new byte[PAGE];
      ghost var was := page[..];
      extmem.ReadData(BUFFER, i * PAGE, page, PAGE);
      ghost var d := page[..PAGE];
      var rc := extmem.WriteData(BACKUP, i * PAGE, page, PAGE, false);
      assert d == page[..];
      SpliceAll(was, s.mem[BUFFER + i * PAGE..BUFFER + i * PAGE + PAGE]);
      SliceBelow(s.mem, BUFFER + i * PAGE, BUFFER + i * PAGE + PAGE);
      PlannedOne(s, Burn(BACKUP + i * PAGE, d), Chip());
      PlannedDisk(s, [Burn(BACKUP + i * PAGE, d)], Chip());
    }
  }

  /** Is the backup invalid, so that it can be overwritten by `n` bytes? */
  predicate Copyable(v: Disk, o: Origin, n: nat) {
    n < PARTITION && Good(v, o) && State(Stored(v, Backup)) != VALID
  }

  /** From `s` to `u` the first `i` pages of the buffer of `v` were copied. */
  predicate Copying(s: Chip, v: Disk, o: Origin, i: nat, total: nat, u: Chip) {
    && i * PAGE <= total <= PARTITION && Settled(u.mem) && u.mem[..INDEX] == Copied(v, i * PAGE, total)
    && Weathered(s, u, o, o) && Good(u.mem[..INDEX], o) && State(Stored(u.mem[..INDEX], Backup)) != VALID
  }

  /** The backup partition has been erased as far as needed. */
  lemma BackupWiped(s: Chip, v: Disk, o: Origin, n: nat, t: Chip, w: Disk)
    requires Settled(s.mem) && v == s.mem[..INDEX] && w == t.mem[..INDEX] && Copyable(v, o, n)
    requires Did(s, EraseOps(BACKUP / SUBSECTOR, n / SUBSECTOR + 1), t)
    requires t.mem == Splice(s.mem, BACKUP / SUBSECTOR * SUBSECTOR, Blank((n / SUBSECTOR + 1) * SUBSECTOR))
    ensures Copying(s, v, o, 0, (n / SUBSECTOR + 1) * SUBSECTOR, t)
  {
    hide Weathered, Good, Settled, Did, Splice, SameBut, Stored, Within, Copied;
    var begin, counter, total := BACKUP / SUBSECTOR, n / SUBSECTOR + 1, (n / SUBSECTOR + 1) * SUBSECTOR;
    BackupErasure(n);
    RangeErased(s, begin, counter, t);
    WithinWeathers(s, t, o, o, BACKUP, BACKUP + total);
    CopiedNothing(v, total);
    SpliceSameBut(v, BACKUP, Blank(total));
    GoodElsewhere(v, w, o, BACKUP, BACKUP + total);
  }

  lemma OnePageCopied(s: Chip, v: Disk, o: Origin, i: nat, total: nat, t: Chip, u: Chip)
    requires Copying(s, v, o, i, total, t) && i * PAGE + PAGE <= total && Planned(t, [PageAct(t.mem[..INDEX], i)], u)
    ensures Copying(s, v, o, i + 1, total, u)
  {
    hide Weathered, Good, Settled, Did, Splice, SameBut, Stored, Within, Copied, ProgramOps, Masked, Planned, PlanOps, Played;
    var w, at := t.mem[..INDEX], BACKUP + i * PAGE;
    var d := w[BUFFER + i * PAGE..BUFFER + i * PAGE + PAGE];
    OnePlanned(t, PageAct(w, i), u);
    ProgramDone(t, at, d, u);
    PartWritten(t, at, d, u);
    WithinWeathers(t, u, o, o, at, at + PAGE);
    GoodElsewhere(w, u.mem[..INDEX], o, at, at + PAGE);
    PageUnread(v, w, i * PAGE, total);
    PageCopied(v, t.mem, i * PAGE, total, d);
    WeatheredBoth(s, t, u, o, o);
  }

  lemma ProgramDone(s: Chip, at: nat, d: seq<byte>, t: Chip)
    requires at + |d| <= SIZE && Did(s, ProgramOps(at, d), t)
    ensures t.mem == Masked(s.mem, at, d)
  {
    hide Masked, ProgramOps, Run;
    DidIs(s, ProgramOps(at, d), t);
    RunProgram(s.mem, at, d);
  }

  lemma AllCopied(s: Chip, v: Disk, o: Origin, n: nat, cnt: nat, total: nat, u: Chip)
    requires Copying(s, v, o, cnt, total, u) && n <= cnt * PAGE
    ensures Weathered(s, u, o, o) && Good(u.mem[..INDEX], o)
    ensures u.mem[..INDEX][BACKUP..BACKUP + n] == v[BUFFER..BUFFER + n] && SameBut(u.mem[..INDEX], v, BACKUP, BACKUP + PARTITION)
  {
    hide Weathered, Good, Settled, Copied, SameBut, Stored;
    CopiedAll(v, n, cnt * PAGE, total);
  }

  lemma GoodThroughout(s: Chip, t: Chip, o: Origin)
    requires Atomic(s, t) && Good(s.mem[..INDEX], o) && Good(t.mem[..INDEX], o)
    ensures Weathered(s, t, o, o)
  {
    hide Good, Atomic, Weathered;
    AtomicWeathers(s, t, o, o);
  }

  /** The size of the firmware has been settled, and saved if it was unknown. */
  lemma FirmwareSaved(r: Ram, s: Chip, o: Origin, internal: seq<byte>, t: Chip)
    requires Inv(r, s.mem[..INDEX], o, internal) && !r.backup.busy && Atomic(s, t)
    requires t.mem[..INDEX] == if Unsized(r.firmware.bin) then Saving(s.mem[..INDEX], Firmware, FixedSize(r.firmware.bin)) else s.mem[..INDEX]
    ensures var q := r.(firmware := r.firmware.(bin := FixedSize(r.firmware.bin)));
            && Inv(q, t.mem[..INDEX], o, internal) && Weathered(s, t, o, o)
            && t.mem[..INDEX] == Saving(s.mem[..INDEX], Firmware, q.firmware.bin)
            && Saving(t.mem[..INDEX], Backup, r.backup.bin) == t.mem[..INDEX]
  {
    hide Weathered, Atomic, Good, SafeToSave, Saving, Settled, Did, Stored;
    var v, q := s.mem[..INDEX], r.(firmware := r.firmware.(bin := FixedSize(r.firmware.bin)));
    SavingSame(v, Firmware);
    assert r.Get(Firmware).bin == Stored(v, Firmware);
    SafeFirmware(v, q.firmware.bin, o);
    assert forall c | c != Firmware :: q.Get(c) == r.Get(c);
    assert q.Get(Firmware).bin == q.firmware.bin;
    InvSaved(v, o, internal, Firmware, q);
    GoodThroughout(s, t, o);
    assert Stored(t.mem[..INDEX], Backup) == q.Get(Backup).bin;
    SavingSame(t.mem[..INDEX], Backup);
  }

  /** A backup of a valid firmware that fits may begin. */
  lemma Launched(r: Ram, v: Disk, o: Origin, internal: seq<byte>, cnt: int)
    requires Inv(r, v, o, internal) && State(r.backup.bin) == INVALID && State(r.firmware.bin) == VALID
    requires |internal| == FIRMWARE_SIZE && Size(r.firmware.bin) > 0
    ensures Inv(r.(backup := r.backup.(busy := false)), v, o, internal)
    ensures 0 <= cnt == Blocks(Size(r.firmware.bin)) && Size(r.firmware.bin) <= FIRMWARE_SIZE ==>
      Inv(r.(backup := r.backup.(busy := true), backupIndex := 0, backupCounter := cnt), v, o, internal)
  {
    hide Good;
    assert forall q: Ram, c: Component | q.backup.bin == r.backup.bin && q.firmware == r.firmware && q.buffer == r.buffer &&
      q.bootloader == r.bootloader ::
      q.Get(c).bin == r.Get(c).bin;
  }

  lemma InvIsGood(r: Ram, v: Disk, o: Origin, internal: seq<byte>)
    requires Inv(r, v, o, internal)
    ensures Good(v, o)
  {
  }

  lemma InProgress(r: Ram, v: Disk, o: Origin, internal: seq<byte>)
    requires Inv(r, v, o, internal)
    ensures BackupProgress(r, v, internal) && EraseProgress(r, v) && EraseRoom(r)
  {
  }

  lemma BackupStored(r: Ram, v: Disk, o: Origin, internal: seq<byte>)
    requires Inv(r, v, o, internal)
    ensures Stored(v, Backup) == r.backup.bin
  {
    hide Good, Stored;
    assert Stored(v, Backup) == r.Get(Backup).bin;
  }

  /** What is already saved is not changed by saving it. */
  lemma InSync(r: Ram, v: Disk, o: Origin, internal: seq<byte>)
    requires Inv(r, v, o, internal)
    ensures Good(v, o) && Saving(Saving(v, Firmware, r.firmware.bin), Backup, r.backup.bin) == v
  {
    hide Good, Saving, Stored;
    assert Stored(v, Firmware) == r.Get(Firmware).bin && Stored(v, Backup) == r.Get(Backup).bin;
    SavingSame(v, Firmware);
    SavingSame(v, Backup);
  }

  lemma PlannedStart(s: Chip, r: Ram, checkBuildId: bool, t: Chip, cnt: int, u: Chip)
    requires !Refuses(r, checkBuildId)
    requires Planned(s, (if Unsized(r.firmware.bin) then [Writing(Firmware, FixedSize(r.firmware.bin))] else []) +
                        (if cnt == -2 then [] else Setting(Backup, r.backup.bin, INVALID)), t)
    requires Planned(t, if cnt == -2 then Setting(Backup, r.backup.bin, INVALID)
                        else Setting(Backup, WithState(r.backup.bin, INVALID), INVALID), u)
    ensures Planned(s, StartingBackup(r, checkBuildId), u)
  {
    hide Planned, FixedSize, BuildId;
    var fix: seq<Act> := if Unsized(r.firmware.bin) then [Writing(Firmware, FixedSize(r.firmware.bin))] else [];
    var mark := Setting(Backup, r.backup.bin, INVALID);
    if cnt == -2 {
      assert fix + [] == fix;
      PlannedBoth(s, fix, t, mark, u);
    } else {
      assert Setting(Backup, WithState(r.backup.bin, INVALID), INVALID) == [];
      PlannedBoth(s, fix + mark, t, [], u);
      assert fix + mark + [] == fix + mark;
    }
  }

  lemma CopyNothing(v: Disk)
    ensures CopyActs(v, 0) == []
  {
  }

  /** One more page has been copied. */
  lemma CopiedMore(s: Chip, i: nat, t: Chip, u: Chip)
    requires BACKUP + i * PAGE + PAGE <= INDEX && Settled(s.mem) && Planned(s, CopyActs(s.mem[..INDEX], i), t)
    requires Planned(t, [PageAct(t.mem[..INDEX], i)], u)
    ensures Planned(s, CopyActs(s.mem[..INDEX], i + 1), u)
  {
    hide Planned, Played, PlanOps, Settled, PageAct;
    var before := CopyActs(s.mem[..INDEX], i);
    PlannedDisk(s, before, t);
    PlannedBoth(s, before, t, [PageAct(t.mem[..INDEX], i)], u);
  }

  lemma PlannedUpdate(r: Ram, s: Chip, t: Chip, u: Chip, w: Chip)
    requires UpdateRoom(Size(r.buffer.bin)) && Settled(s.mem) && Planned(s, Setting(Backup, r.backup.bin, INVALID), t)
    requires Planned(t, CopyingActs(t.mem[..INDEX], Size(r.buffer.bin)), u)
    requires Planned(u, [Writing(Backup, WithState(r.buffer.bin, VALID))], w)
    ensures Planned(s, UpdateActs(r, s.mem[..INDEX]), w)
  {
    hide Planned, Played, PlanOps, Settled, CopyingActs, Setting;
    var mark := Setting(Backup, r.backup.bin, INVALID);
    PlannedDisk(s, mark, t);
    PlannedBoth(s, mark, t, CopyingActs(t.mem[..INDEX], Size(r.buffer.bin)), u);
    PlannedBoth(s, mark + CopyingActs(t.mem[..INDEX], Size(r.buffer.bin)), u, [Writing(Backup, WithState(r.buffer.bin, VALID))], w);
  }

  lemma NothingUnderWay(r: Ram, v: Disk, internal: seq<byte>)
    requires !r.backup.busy
    ensures BackupProgress(r, v, internal) && (State(r.buffer.bin) != ERASING ==> EraseProgress(r, v))
  {
  }

  lemma SafeFirmware(v: Disk, b: Bin, o: Origin)
    ensures SafeToSave(v, Firmware, b, o)
  {
  }

  lemma SafeInvalid(v: Disk, b: Bin, o: Origin)
    requires State(b) != VALID
    ensures SafeToSave(v, Backup, b, o)
  {
  }

  lemma AtomicSettled(s: Chip, t: Chip)
    requires Atomic(s, t)
    ensures Settled(s.mem) && Settled(t.mem)
  {
  }
}
