/** The binaries the device keeps, their descriptions as they lie in memory, and
    what those descriptions promise about the flash. */
module Binaries {
  import opened Bytes
  import opened NorFlash
  import opened Streams
  import opened Journal

  const BUFFER := 0x00_0000
  const BACKUP := 0x20_0000
  const PARTITION := 0x20_0000 // bytes in the buffer, and in the backup, partition
  const FIRMWARE_SIZE := 0x1F_0000
  const STRUCT := 160 // sizeof(struct_binary)

  const INVALID: byte := 0
  const VALID: byte := 1
  const ERASING: byte := 2
  const ERASED: byte := 3

  datatype Component = Bootloader | Firmware | Backup | Buffer

  /** Where the description of a component is kept. */
  function Place(c: Component): nat {
    CONFIG + match c { case Bootloader => 1024 case Firmware => 1280 case Backup => 1536 case Buffer => 1792 }
  }

  /** A `struct_binary`: size, crc, build_id[48], version[32], timestamp,
      usr_version[32], usr_name[32], state and padding. */
  type Bin = b: seq<byte> | |b| == STRUCT witness Blank(STRUCT)

  function Size(b: Bin): u32 { Le32(b[0..4]) }

  function Crc(b: Bin): u32 { Le32(b[4..8]) }

  /** Everything but the state. */
  function Meta(b: Bin): seq<byte> { b[..156] }

  function State(b: Bin): byte { b[156] }

  function WithState(b: Bin, s: byte): Bin { b[156 := s] }

  function WithSize(b: Bin, size: u32): Bin { Splice(b, 0, ToLe32(size)) }

  function BuildId(b: Bin): seq<byte> { CString(b[8..56]) }

  lemma SameMeta(a: Bin, b: Bin)
    requires Meta(a) == Meta(b)
    ensures Size(a) == Size(b) && Crc(a) == Crc(b) && BuildId(a) == BuildId(b)
  {
    assert a[0..4] == Meta(a)[0..4] && b[0..4] == Meta(b)[0..4];
    assert a[4..8] == Meta(a)[4..8] && b[4..8] == Meta(b)[4..8];
    assert a[8..56] == Meta(a)[8..56] && b[8..56] == Meta(b)[8..56];
  }

  lemma WithStateMeta(b: Bin, s: byte)
    ensures Meta(WithState(b, s)) == Meta(b) && State(WithState(b, s)) == s && Size(WithState(b, s)) == Size(b)
    ensures WithState(WithState(b, s), State(b)) == b
  {
    SameMeta(WithState(b, s), b);
  }

  // ---- what is on the flash ----------------------------------------------

  /** The flash below the journal. */
  type Disk = v: seq<byte> | |v| == INDEX witness Blank(INDEX)

  function Stored(v: Disk, c: Component): Bin {
    v[Place(c)..Place(c) + STRUCT]
  }

  /** The flash after the description of `c` has been saved. */
  function Saving(v: Disk, c: Component, b: Bin): Disk {
    Splice(v, Place(c), b)
  }

  lemma SavingStores(v: Disk, c: Component, b: Bin)
    ensures forall e :: Stored(Saving(v, c, b), e) == if e == c then b else Stored(v, e)
    ensures Flag(Saving(v, c, b)) == Flag(v)
    ensures Saving(v, c, b)[..CONFIG] == v[..CONFIG]
  {
    hide Splice, Le32, Saving, Stored;
    SavingElsewhere(v, c, b);
    forall e
      ensures Stored(Saving(v, c, b), e) == if e == c then b else Stored(v, e)
    {
      SavingStored(v, c, b, e);
    }
  }

  lemma SavingStored(v: Disk, c: Component, b: Bin, e: Component)
    ensures Stored(Saving(v, c, b), e) == if e == c then b else Stored(v, e)
  {
    hide Splice, Le32, CString, Blank;
    var x := Place(e);
    assert c == e || x + STRUCT <= Place(c) || Place(c) + STRUCT <= x;
    SpliceSlice(v, Place(c), b, x, x + STRUCT);
    if c == e {
      assert b[x - x..x + STRUCT - x] == b;
    }
  }

  lemma SavingElsewhere(v: Disk, c: Component, b: Bin)
    ensures Flag(Saving(v, c, b)) == Flag(v) && Saving(v, c, b)[..CONFIG] == v[..CONFIG]
  {
    hide Splice, Le32;
    SpliceSlice(v, Place(c), b, CONFIG, CONFIG + 4);
    SpliceSlice(v, Place(c), b, 0, CONFIG);
  }

  /** The persisted flash flag, the first word of the configuration. */
  function Flag(v: Disk): u32 {
    Le32(v[CONFIG..CONFIG + 4])
  }

  // ---- the promises --------------------------------------------------------

  /** A description and the image it was copied with. */
  datatype Origin = Origin(meta: seq<byte>, image: seq<byte>)

  /** A backup persisted as valid is byte for byte the image its description
      was copied from. */
  predicate Durable(v: Disk, o: Origin) {
    var b := Stored(v, Backup);
    State(b) == VALID ==>
      Meta(b) == o.meta && Size(b) <= PARTITION && v[BACKUP..BACKUP + Size(b)] == o.image
  }

  /** No update is scheduled from a buffer that is being, or has been, erased. */
  predicate FlagSafe(v: Disk) {
    State(Stored(v, Buffer)) == ERASING || State(Stored(v, Buffer)) == ERASED ==> Flag(v) == 0
  }

  predicate Good(v: Disk, o: Origin) {
    Durable(v, o) && FlagSafe(v)
  }

  /** Saving this description breaks no promise. */
  predicate SafeToSave(v: Disk, c: Component, b: Bin, o: Origin) {
    match c
    case Bootloader => true
    case Firmware => true
    case Backup => State(b) == VALID ==> Meta(b) == o.meta && Size(b) <= PARTITION && v[BACKUP..BACKUP + Size(b)] == o.image
    case Buffer => State(b) == ERASING || State(b) == ERASED ==> Flag(v) == 0
  }

  lemma SavingGood(v: Disk, c: Component, b: Bin, o: Origin)
    requires SafeToSave(v, c, b, o) && (Good(v, o) || (c == Backup && FlagSafe(v)))
    ensures Good(Saving(v, c, b), o)
  {
    hide Le32, CString, Saving, Stored;
    SavingStores(v, c, b);
    var w := Saving(v, c, b);
    var n := Size(Stored(w, Backup));
    if n <= PARTITION {
      SameSlices(w, v, CONFIG, BACKUP, BACKUP + n);
    }
  }

  /** A backup marked invalid promises nothing about its origin. */
  lemma InvalidIsGood(v: Disk, o: Origin, p: Origin)
    requires Good(v, o) && State(Stored(v, Backup)) != VALID
    ensures Good(v, p)
  {
  }

  lemma SavingTwice(v: Disk, c: Component, a: Bin, b: Bin)
    ensures Saving(Saving(v, c, a), c, b) == Saving(v, c, b)
  {
  }

  /** Saving what is already there changes nothing. */
  lemma SavingSame(v: Disk, c: Component)
    ensures Saving(v, c, Stored(v, c)) == v
  {
  }

  /** Both promises survive any change to the buffer partition, and a change to
      the backup partition while no backup is marked valid. */
  lemma GoodElsewhere(v: Disk, w: Disk, o: Origin, lo: nat, hi: nat)
    requires Good(v, o) && SameBut(w, v, lo, hi) && hi <= CONFIG
    requires hi <= BACKUP || State(Stored(v, Backup)) != VALID
    ensures Good(w, o) && forall c :: Stored(w, c) == Stored(v, c)
  {
    hide Le32, CString;
    StoredElsewhere(v, w, lo, hi);
    assert w[CONFIG..CONFIG + 4] == v[CONFIG..CONFIG + 4];
    var b := Stored(v, Backup);
    if State(b) == VALID {
      assert w[BACKUP..BACKUP + Size(b)] == v[BACKUP..BACKUP + Size(b)];
    }
  }

  lemma StoredElsewhere(v: Disk, w: Disk, lo: nat, hi: nat)
    requires SameBut(w, v, lo, hi) && hi <= CONFIG
    ensures forall c :: Stored(w, c) == Stored(v, c)
  {
    forall c
      ensures Stored(w, c) == Stored(v, c)
    {
      assert w[Place(c)..Place(c) + STRUCT] == v[Place(c)..Place(c) + STRUCT];
    }
  }

  /** Wherever power fails between `s` and `t`, the chip stands for contents that
      keep both promises, for one origin of the backup or the other. */
  predicate Weathered(s: Chip, t: Chip, o: Origin, p: Origin) {
    && Follows(s, t) && Settled(s.mem) && Settled(t.mem)
    && forall k | 0 <= k <= |Since(s, t)| :: Sound(CutAt(s, t, k)) && GoodEither(Contents(CutAt(s, t, k)), o, p)
  }

  predicate GoodEither(v: Disk, o: Origin, p: Origin) {
    Good(v, o) || Good(v, p)
  }

  lemma AtomicWeathers(s: Chip, t: Chip, o: Origin, p: Origin)
    requires Atomic(s, t) && GoodEither(s.mem[..INDEX], o, p) && GoodEither(t.mem[..INDEX], o, p)
    ensures Weathered(s, t, o, p)
  {
    hide GoodEither, Contents, RunTo, Sound, ReadRecord, Did;
  }

  lemma WithinWeathers(s: Chip, t: Chip, o: Origin, p: Origin, lo: nat, hi: nat)
    requires Within(s, t, lo, hi) && Good(s.mem[..INDEX], o) && hi <= CONFIG
    requires hi <= BACKUP || State(Stored(s.mem[..INDEX], Backup)) != VALID
    ensures Weathered(s, t, o, p) && Weathered(s, t, p, o)
  {
    hide Good, Contents, RunTo, Sound, ReadRecord, Did, SameBut, Stored;
    forall k | 0 <= k <= |Since(s, t)|
      ensures Good(Contents(CutAt(s, t, k)), o)
    {
      GoodElsewhere(s.mem[..INDEX], Contents(CutAt(s, t, k)), o, lo, hi);
    }
  }

  lemma WeatheredBoth(s: Chip, t: Chip, u: Chip, o: Origin, p: Origin)
    requires Weathered(s, t, o, p) && Weathered(t, u, o, p)
    ensures Weathered(s, u, o, p)
  {
    hide GoodEither, Contents, RunTo, Run, Sound, ReadRecord, Did;
    var a, b := Since(s, t), Since(t, u);
    DidBoth(s, a, t, b, u);
    DidFollows(s, a + b, u);
    DidIs(s, a, t);
    forall k | 0 <= k <= |Since(s, u)|
      ensures Sound(CutAt(s, u, k)) && GoodEither(Contents(CutAt(s, u, k)), o, p)
    {
      RunCut(s.mem, a, b, k);
      if k <= |a| {
        assert CutAt(s, u, k) == CutAt(s, t, k);
      } else {
        assert CutAt(s, u, k) == CutAt(t, u, k - |a|);
      }
    }
  }

  /** What holds for one origin holds for either. */
  lemma WeatheredEither(s: Chip, t: Chip, o: Origin, p: Origin)
    requires Weathered(s, t, o, o)
    ensures Weathered(s, t, o, p) && Weathered(s, t, p, o)
  {
    hide Good, Contents, RunTo, Run, Sound, ReadRecord, Did;
    forall k | 0 <= k <= |Since(s, t)|
      ensures Good(Contents(CutAt(s, t, k)), o)
    {
      assert GoodEither(Contents(CutAt(s, t, k)), o, o);
    }
  }

  lemma DidIs(s: Chip, delta: seq<Op>, t: Chip)
    requires Did(s, delta, t)
    ensures t.mem == Run(s.mem, delta)
  {
  }

  // ---- what touches what ---------------------------------------------------

  lemma ProgramTouches(a: nat, d: seq<byte>)
    requires a + |d| <= SIZE
    ensures TouchesOnly(ProgramOps(a, d), a, a + |d|)
  {
  }
}
