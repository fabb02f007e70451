/** Where the promise about scheduled updates ends: an upload of 4 MiB or more that
    is copied over the backup runs over the configuration, and the device goes on
    believing what it holds in RAM. */
module FlagLoss {
  import opened Bytes
  import opened Options
  import opened NorFlash
  import opened Streams
  import opened Journal
  import opened ExternalMemory
  import opened Binaries
  import opened Plans
  import opened BinaryManager
  import opened MqttCommands
  import opened Machine
  import opened FlagSafety

  // ---- the events ------------------------------------------------------------------------

  const WORD: seq<byte> := [1, 0, 0, 0] // what the upload begins with

  function PartOf(i: u32, d: seq<byte>): Part {
    XorAllBound(d);
    Part(Some(i), Some(|d| % 0x1_0000_0000), Some(Some(d)), Some(XorAll(d)))
  }

  function Opening(size: u32): Event {
    XorAllBound(WORD);
    Start(StartRequest(Some(size), Some(XorAll(WORD)), Some([]), Some([]), None, None, None), Blank(STRUCT))
  }

  function Rounds(n: nat): seq<Event> {
    seq(n, _ => Round(NoFault))
  }

  /** An upload of `size` bytes up to its last erasing round. */
  function Erasure(size: u32): seq<Event> {
    [Opening(size)] + Rounds(size / SUBSECTOR + 2)
  }

  /** One part of four bytes arrives, the upload ends, and it becomes the backup. */
  function Installing(size: u32): seq<Event> {
    Erasure(size) + [Data(PartOf(0, WORD)), End, Event.Update(Some(Some(ToBackup)), 0)]
  }

  /** Then the next upload begins. */
  function Losing(size: u32): seq<Event> {
    Installing(size) + [Opening(1)]
  }

  /** `n` parts that leave erased cells as they are. */
  function Blanks(n: nat): seq<Event>
    requires n <= PARTS
  {
    seq(n, i requires 0 <= i < n => Data(PartOf(i, Blank(DECODED))))
  }

  const PARTS := INDEX / DECODED // how many of them reach the journal

  /** Or it is let go on, up to data that reaches the configuration. */
  function LosingMore(): seq<Event> {
    Installing(LIMIT) + Erasure(1) + Blanks(CONFIG / DECODED) + [Data(PartOf(CONFIG / DECODED, WORD)), Opening(1)]
  }

  lemma WordSum()
    ensures XorAll(WORD) == 1
  {
    var a, b, c: seq<byte> := [1], [1, 0], [1, 0, 0];
    assert a[..0] == [] && b[..1] == a && c[..2] == b && WORD[..3] == c;
    assert XorOn(0, a) == 1;
    assert XorOn(0, b) == 1;
    assert XorOn(0, c) == 1;
  }

  // ---- the stages ------------------------------------------------------------------------

  predicate Idle(y: Sys) {
    !y.r.backup.busy && FlagOf(y.config) == 0
  }

  /** `i` subsectors have been erased for an upload of `size` bytes. */
  predicate Erasing(y: Sys, size: u32, i: nat) {
    && Idle(y) && State(y.r.buffer.bin) == ERASING && Size(y.r.buffer.bin) == size
    && y.r.eraseIndex == i && y.r.eraseCounter == size / SUBSECTOR + 1 && Fresh(y) && (i > 0 ==> PageBlank(y.v))
  }

  /** No part has arrived yet. */
  predicate Fresh(y: Sys) {
    y.r.written == 0 && y.next == 0 && y.calculated == 0 && y.received == XorAll(WORD)
  }

  predicate PageBlank(v: Disk) {
    v[..PAGE] == Blank(PAGE)
  }

  predicate Waiting(y: Sys, size: u32) {
    Idle(y) && State(y.r.buffer.bin) == ERASED && Size(y.r.buffer.bin) == size && Fresh(y) && PageBlank(y.v)
  }

  /** `n` whole parts have arrived. */
  predicate Receiving(y: Sys, n: nat) {
    && Idle(y) && (State(y.r.buffer.bin) == INVALID || (State(y.r.buffer.bin) == ERASED && n == 0))
    && y.r.written == n * DECODED && y.next == n
  }

  /** All has arrived. */
  predicate Stocked(y: Sys, size: u32, state: byte) {
    && Idle(y) && State(y.r.buffer.bin) == state && Size(y.r.buffer.bin) == size
    && y.calculated == y.received == XorAll(WORD) && y.v[..4] == WORD
  }

  /** No erasure that is considered here reaches the configuration. */
  predicate Fitting(size: nat) {
    size < INDEX - BACKUP
  }

  // ---- the steps -------------------------------------------------------------------------

  lemma Opens(y: Sys, size: u32, internal: seq<byte>)
    requires !y.r.backup.busy && State(y.r.buffer.bin) != ERASING && Bounded(y.r, internal)
    ensures Room(Opening(size), y)
    ensures var z := After(y, Opening(size), internal).to;
            && Erasing(z, size, 0) && State(Stored(z.v, Buffer)) == ERASING && (FlagOf(y.config) == 0 ==> Flag(z.v) == Flag(y.v))
  {
    hide Le32, Described, Stored, XorOn, Played, PageBlank, WithState;
    var q, memory := Opening(size).q, Opening(size).memory;
    var b := WithState(Described(q, memory), ERASING);
    DescribedSays(q, memory);
    WithStateMeta(Described(q, memory), ERASING);
    FlaggedIs(y.config, 0);
    var u := Played(y.v, FlagActs(y.config, 0));
    PlayedConcat(y.v, FlagActs(y.config, 0), [Writing(Buffer, b)]);
    PlayedOne(u, Writing(Buffer, b));
    PlayedNothing(y.v);
    SavingStores(u, Buffer, b);
  }

  lemma Erases(y: Sys, size: u32, i: nat, internal: seq<byte>)
    requires Erasing(y, size, i) && i <= size / SUBSECTOR && Fitting(size) && Bounded(y.r, internal)
    ensures Room(Round(NoFault), y)
    ensures var z := After(y, Round(NoFault), internal).to; Erasing(z, size, i + 1) && Flag(z.v) == Flag(y.v)
  {
    hide Le32, Played, XorOn, PageBlank;
    assert i * SUBSECTOR + SUBSECTOR <= CONFIG;
    var x := Wipe(i, 1);
    assert YieldActs(y.r, internal, NoFault) == [x];
    PlayedOne(y.v, x);
    WipedElsewhere(y.v, i);
  }

  lemma WipedElsewhere(v: Disk, i: nat)
    requires i * SUBSECTOR + SUBSECTOR <= CONFIG
    ensures var w := Acted(v, Wipe(i, 1)); Flag(w) == Flag(v) && (i == 0 || PageBlank(v) ==> PageBlank(w))
  {
    hide Le32, Splice, PageBlank;
    var d, at := Blank(SUBSECTOR), i * SUBSECTOR;
    assert Blank(1 * SUBSECTOR) == d;
    SpliceSlice(v, at, d, CONFIG, CONFIG + 4);
    if i == 0 {
      FirstWiped(v);
    } else {
      PageKept(v, at, d);
    }
  }

  lemma FirstWiped(v: Disk)
    ensures PageBlank(Splice(v, 0, Blank(SUBSECTOR)))
  {
    hide Splice;
    var w := Splice(v, 0, Blank(SUBSECTOR));
    forall j | 0 <= j < PAGE
      ensures w[j] == 0xFF
    {
      SpliceAt(v, 0, Blank(SUBSECTOR), j);
    }
  }

  lemma PageKept(v: Disk, at: nat, d: seq<byte>)
    requires PAGE <= at && at + |d| <= INDEX
    ensures PageBlank(v) ==> PageBlank(Splice(v, at, d))
  {
    hide Splice;
    SpliceSlice(v, at, d, 0, PAGE);
    var w := Splice(v, at, d);
    assert v[0..PAGE] == v[..PAGE] && w[0..PAGE] == w[..PAGE];
  }

  lemma EndsErasing(y: Sys, size: u32, internal: seq<byte>)
    requires Erasing(y, size, size / SUBSECTOR + 1) && Bounded(y.r, internal)
    ensures Room(Round(NoFault), y)
    ensures var z := After(y, Round(NoFault), internal).to; Waiting(z, size) && Flag(z.v) == Flag(y.v)
  {
    hide Le32, Played, XorOn, PageBlank, WithState, Stored;
    var b := WithState(y.r.buffer.bin, ERASED);
    assert YieldActs(y.r, internal, NoFault) == [Writing(Buffer, b)];
    PlayedOne(y.v, Writing(Buffer, b));
    WithStateMeta(y.r.buffer.bin, ERASED);
    SavingStores(y.v, Buffer, b);
    LowKept(y.v, Saving(y.v, Buffer, b));
  }

  lemma LowKept(v: Disk, w: Disk)
    requires v[..CONFIG] == w[..CONFIG]
    ensures (PageBlank(v) ==> PageBlank(w)) && v[..4] == w[..4]
  {
    SameSlices(v, w, CONFIG, 0, PAGE);
    SameSlices(v, w, CONFIG, 0, 4);
    assert v[0..PAGE] == v[..PAGE] && w[0..PAGE] == w[..PAGE] && v[0..4] == v[..4] && w[0..4] == w[..4];
  }

  /** A part is programmed behind the others. */
  lemma Stores(y: Sys, n: nat, d: seq<byte>, internal: seq<byte>)
    requires Receiving(y, n) && n <= PARTS && |d| <= DECODED && n * DECODED + |d| <= INDEX && Bounded(y.r, internal)
    ensures Room(Data(PartOf(n, d)), y)
    ensures var z, w := After(y, Data(PartOf(n, d)), internal).to, Marked(y.v, y.r.buffer.bin);
            && Idle(z) && State(z.r.buffer.bin) == INVALID && Size(z.r.buffer.bin) == Size(y.r.buffer.bin)
            && z.r.written == n * DECODED + |d| && z.next == n + 1
            && z.calculated == XorOn(y.calculated, d) && z.received == y.received
            && z.v == Anded(w, n * DECODED, d) && Flag(w) == Flag(y.v) && w[..CONFIG] == y.v[..CONFIG]
  {
    hide Le32, Played, XorOn, WithState, Stored, Anded, Setting, Acceptable, PartOf, Marked, StoreActs, State, FlagOf, Flag;
    var b := y.r.buffer.bin;
    Accepts(n, d);
    WithStateMeta(b, INVALID);
    Marks(y.v, b);
    StorePlayed(y.v, b, n * DECODED, d);
  }

  lemma StorePlayed(v: Disk, b: Bin, at: nat, d: seq<byte>)
    requires at + |d| <= INDEX
    ensures Played(v, StoreActs(b, at, d)) == Anded(Marked(v, b), at, d)
  {
    hide Played, Setting, Anded;
    PlayedConcat(v, Setting(Buffer, b, INVALID), [Burn(BUFFER + at, d)]);
    PlayedOne(Marked(v, b), Burn(BUFFER + at, d));
  }

  lemma Accepts(n: u32, d: seq<byte>)
    requires |d| <= DECODED
    ensures Acceptable(PartOf(n, d), n) && PartOf(n, d).data == Some(Some(d))
  {
    hide XorAll;
  }

  /** The flash with the buffer marked invalid. */
  function Marked(v: Disk, b: Bin): Disk {
    Played(v, Setting(Buffer, b, INVALID))
  }

  lemma Marks(v: Disk, b: Bin)
    ensures Flag(Marked(v, b)) == Flag(v) && Marked(v, b)[..CONFIG] == v[..CONFIG]
  {
    hide Le32, Played, WithState, Stored;
    PlayedNothing(v);
    PlayedOne(v, Writing(Buffer, WithState(b, INVALID)));
    SavingStores(v, Buffer, WithState(b, INVALID));
  }

  /** Blank parts change nothing. */
  lemma Fills(y: Sys, n: nat, internal: seq<byte>)
    requires Receiving(y, n) && n < PARTS && Bounded(y.r, internal)
    ensures Room(Data(PartOf(n, Blank(DECODED))), y)
    ensures var z := After(y, Data(PartOf(n, Blank(DECODED))), internal).to; Receiving(z, n + 1) && Flag(z.v) == Flag(y.v)
  {
    hide Le32, XorOn, Anded, After, Room, Bounded, Blank, Marked;
    Stores(y, n, Blank(DECODED), internal);
    AndedBlank(Marked(y.v, y.r.buffer.bin), n * DECODED, DECODED);
  }

  lemma AndedBlank(v: Disk, at: nat, n: nat)
    requires at + n <= INDEX
    ensures Anded(v, at, Blank(n)) == v
  {
    hide And;
    forall i | 0 <= i < INDEX
      ensures Anded(v, at, Blank(n))[i] == v[i]
    {
      AndErased(v[i]);
      AndSymmetric(0xFF, v[i]);
    }
  }

  lemma WordStored(u: Disk)
    requires PageBlank(u)
    ensures Anded(u, 0, WORD)[..4] == WORD
  {
    hide And;
    assert forall i | 0 <= i < 4 :: u[i] == u[..PAGE][i] == 0xFF;
    AndErased(1);
    AndErased(0);
  }

  lemma FlagStored(u: Disk)
    requires Flag(u) == UNKNOWN
    ensures Flag(Anded(u, CONFIG, WORD)) == 1
  {
    hide And;
    var x, w := u[CONFIG..CONFIG + 4], Anded(u, CONFIG, WORD);
    AllOnes(x);
    assert u[CONFIG] == x[0] && u[CONFIG + 1] == x[1] && u[CONFIG + 2] == x[2] && u[CONFIG + 3] == x[3];
    AndErased(1);
    AndErased(0);
    assert w[CONFIG..CONFIG + 4] == [1, 0, 0, 0];
  }

  lemma AllOnes(b: seq<byte>)
    requires |b| == 4 && Le32(b) == UNKNOWN
    ensures b[0] == 0xFF && b[1] == 0xFF && b[2] == 0xFF && b[3] == 0xFF
  {
  }

  lemma Ends(y: Sys, size: u32, internal: seq<byte>)
    requires Stocked(y, size, INVALID) && Bounded(y.r, internal)
    ensures Room(End, y) && Stocked(After(y, End, internal).to, size, VALID)
  {
    hide Le32, Played, XorOn, WithState, Stored;
    var b := WithState(y.r.buffer.bin, VALID);
    WithStateMeta(y.r.buffer.bin, VALID);
    SavingStores(y.v, Buffer, b);
    LowKept(y.v, Saving(y.v, Buffer, b));
    assert Setting(Buffer, y.r.buffer.bin, VALID) == [Writing(Buffer, b)];
    PlayedOne(y.v, Writing(Buffer, b));
  }

  // ---- the copy --------------------------------------------------------------------------

  /** Where what lands at `i` comes from: beyond 2 MiB the copy reads what it has
      written itself. */
  function Wrapped(i: nat): nat {
    if i < BACKUP then i else Wrapped(i - BACKUP)
  }

  lemma {:induction false} CopyWraps(v: Disk, n: nat, i: nat)
    requires BACKUP + n * PAGE <= INDEX && i < INDEX
    requires forall j | BACKUP <= j < BACKUP + n * PAGE :: v[j] == 0xFF
    ensures Wrapped(i) <= i
    ensures Played(v, CopyActs(v, n))[i] == if BACKUP <= i < BACKUP + n * PAGE then v[Wrapped(i)] else v[i]
    decreases n
  {
    hide Played, CopyActs;
    WrappedBelow(i);
    if n == 0 {
      CopyNothing(v);
      PlayedNothing(v);
    } else {
      CopyWraps(v, n - 1, i);
      PageLands(v, n, i);
      if BACKUP + (n - 1) * PAGE <= i < BACKUP + n * PAGE {
        CopyWraps(v, n - 1, i - BACKUP);
      }
    }
  }

  /** What the last of `n` pages changes, if it lands on blank cells. */
  lemma PageLands(v: Disk, n: nat, i: nat)
    requires 0 < n && BACKUP + n * PAGE <= INDEX && i < INDEX
    ensures var u, w, at := Played(v, CopyActs(v, n - 1)), Played(v, CopyActs(v, n)), BACKUP + (n - 1) * PAGE;
            w[i] == if at <= i < at + PAGE then And(u[i], u[i - BACKUP]) else u[i]
    ensures And(0xFF, Played(v, CopyActs(v, n - 1))[i]) == Played(v, CopyActs(v, n - 1))[i]
    ensures i >= BACKUP ==> And(0xFF, Played(v, CopyActs(v, n - 1))[i - BACKUP]) == Played(v, CopyActs(v, n - 1))[i - BACKUP]
  {
    hide And, Played;
    var before, at := CopyActs(v, n - 1), (n - 1) * PAGE;
    var u := Played(v, before);
    var x := PageAct(u, n - 1);
    PlayedConcat(v, before, [x]);
    PlayedOne(u, x);
    AndErased(u[i]);
    if i >= BACKUP {
      AndErased(u[i - BACKUP]);
    }
  }

  lemma {:induction false} WrappedBelow(i: nat)
    ensures Wrapped(i) <= i
  {
    if i >= BACKUP {
      WrappedBelow(i - BACKUP);
    }
  }

  /** What an update of this size, that begins with this word, leaves of the flag. */
  function FlagLeftBy(size: u32, word: seq<byte>): u32
    requires |word| == 4
  {
    if size == LIMIT then UNKNOWN else Le32(word)
  }

  lemma Updates(y: Sys, size: u32, internal: seq<byte>)
    requires Stocked(y, size, VALID) && LIMIT <= size && Fitting(size) && Bounded(y.r, internal)
    ensures var e := Event.Update(Some(Some(ToBackup)), 0);
            && Room(e, y)
            && var z := After(y, e, internal).to;
               Idle(z) && State(z.r.buffer.bin) == VALID && Flag(z.v) == FlagLeftBy(size, WORD)
  {
    hide Le32, Played, XorOn, WithState, Stored, UpdateActs;
    WordSum();
    UpdateFlag(y.r, y.v);
  }

  lemma UpdateFlag(r: Ram, v: Disk)
    requires LIMIT <= Size(r.buffer.bin) && Fitting(Size(r.buffer.bin))
    ensures UpdateRoom(Size(r.buffer.bin)) && Flag(Played(v, UpdateActs(r, v))) == FlagLeftBy(Size(r.buffer.bin), v[..4])
  {
    hide Le32, Played, WithState, Stored, CopyActs, Setting, PagesOf, Splice;
    var n := Size(r.buffer.bin);
    var mark, last := Setting(Backup, r.backup.bin, INVALID), Writing(Backup, WithState(r.buffer.bin, VALID));
    var wipe := Wipe(BACKUP / SUBSECTOR, n / SUBSECTOR + 1);
    var v1 := Played(v, mark);
    PagesFit(n);
    MarkKeeps(v, r.backup.bin);
    var w := Played(v1, [wipe]);
    PlayedOne(v1, wipe);
    var pages := CopyActs(w, PagesOf(n));
    PlayedConcat(v, mark + CopyingActs(v1, n), [last]);
    PlayedConcat(v, mark, CopyingActs(v1, n));
    PlayedConcat(v1, [wipe], pages);
    PlayedOne(Played(w, pages), last);
    SavingStores(Played(w, pages), Backup, WithState(r.buffer.bin, VALID));
    CopiedFlag(v1, n);
  }

  lemma MarkKeeps(v: Disk, b: Bin)
    ensures Played(v, Setting(Backup, b, INVALID))[..4] == v[..4]
  {
    hide Le32, Played, WithState, Stored;
    PlayedNothing(v);
    var x := WithState(b, INVALID);
    PlayedOne(v, Writing(Backup, x));
    SavingStores(v, Backup, x);
    LowKept(v, Saving(v, Backup, x));
  }

  lemma CopiedFlag(v: Disk, n: u32)
    requires LIMIT <= n && Fitting(n)
    requires UpdateRoom(n) && BACKUP + PagesOf(n) * PAGE <= INDEX
    ensures var w := Acted(v, Wipe(BACKUP / SUBSECTOR, n / SUBSECTOR + 1));
            Flag(Played(w, CopyActs(w, PagesOf(n)))) == FlagLeftBy(n, v[..4])
  {
    hide Le32, Played, CopyActs, PagesOf, Acted, UpdateRoom;
    var w := Acted(v, Wipe(BACKUP / SUBSECTOR, n / SUBSECTOR + 1));
    var u := Played(w, CopyActs(w, PagesOf(n)));
    CopiedByte(v, n, 0);
    CopiedByte(v, n, 1);
    CopiedByte(v, n, 2);
    CopiedByte(v, n, 3);
    FlagBytes(u, n, v[..4]);
  }

  lemma CopiedByte(v: Disk, n: u32, j: nat)
    requires LIMIT <= n && Fitting(n) && j < 4
    requires UpdateRoom(n) && BACKUP + PagesOf(n) * PAGE <= INDEX
    ensures var w := Acted(v, Wipe(BACKUP / SUBSECTOR, n / SUBSECTOR + 1));
            Played(w, CopyActs(w, PagesOf(n)))[CONFIG + j] == if n == LIMIT then 0xFF else v[j]
  {
    hide Le32, Played, CopyActs, Splice, PagesOf;
    var total := (n / SUBSECTOR + 1) * SUBSECTOR;
    var w := Acted(v, Wipe(BACKUP / SUBSECTOR, n / SUBSECTOR + 1));
    PagesFit(n);
    assert w == Splice(v, BACKUP, Blank(total));
    forall i | BACKUP <= i < BACKUP + PagesOf(n) * PAGE
      ensures w[i] == 0xFF
    {
      SpliceAt(v, BACKUP, Blank(total), i);
    }
    CopyWraps(w, PagesOf(n), CONFIG + j);
    ThriceWrapped(j);
    SpliceAt(v, BACKUP, Blank(total), j);
    SpliceAt(v, BACKUP, Blank(total), CONFIG + j);
  }

  lemma PagesFit(n: u32)
    ensures n <= PagesOf(n) * PAGE <= (n / SUBSECTOR + 1) * SUBSECTOR && (n == LIMIT ==> PagesOf(n) * PAGE == n)
    ensures n > LIMIT ==> PagesOf(n) * PAGE >= LIMIT + 4
    ensures LIMIT <= n ==> (n / SUBSECTOR + 1) * SUBSECTOR >= LIMIT + 4
    ensures Fitting(n) ==> UpdateRoom(n) && BACKUP + PagesOf(n) * PAGE <= INDEX
  {
  }

  lemma ThriceWrapped(j: nat)
    requires j < 4
    ensures Wrapped(CONFIG + j) == j
  {
    assert Wrapped(CONFIG + j) == Wrapped(2 * BACKUP + j) == Wrapped(BACKUP + j) == Wrapped(j);
  }

  lemma FlagBytes(u: Disk, n: u32, word: seq<byte>)
    requires |word| == 4 && forall j | 0 <= j < 4 :: u[CONFIG + j] == if n == LIMIT then 0xFF else word[j]
    ensures Flag(u) == FlagLeftBy(n, word)
  {
    var b := u[CONFIG..CONFIG + 4];
    assert b[0] == u[CONFIG + 0] && b[1] == u[CONFIG + 1] && b[2] == u[CONFIG + 2] && b[3] == u[CONFIG + 3];
    var w0, w1, w2, w3 := word[0], word[1], word[2], word[3];
    if n == LIMIT {
      assert b == [0xFF, 0xFF, 0xFF, 0xFF];
    } else {
      assert b == word;
    }
  }

  lemma WordIsOne()
    ensures Le32(WORD) == 1
  {
  }

  // ---- the runs --------------------------------------------------------------------------

  lemma NextEvent(image: Image, internal: seq<byte>, events: seq<Event>, e: Event)
    requires Sound(image) && |internal| == FIRMWARE_SIZE && Roomy(image, internal, events)
    ensures var y := SysAfter(image, internal, events);
            && Bounded(y.r, internal)
            && (Room(e, y) ==> Roomy(image, internal, events + [e]) && SysAfter(image, internal, events + [e]) == After(y, e, internal).to)
  {
    hide After, Room, BootSys, Bounded, Roomy;
    Together(image, internal, events);
    assert (events + [e])[..|events|] == events;
    if Room(e, SysAfter(image, internal, events)) {
      RoomyMore(image, internal, events, e);
    }
  }

  /** Nothing is under way after start-up. */
  lemma Rested(image: Image, internal: seq<byte>)
    ensures var y := SysAfter(image, internal, []); !y.r.backup.busy && State(y.r.buffer.bin) != ERASING
  {
    hide Found, Played, StartActs, Configured, ConfigActs, Fixed, Stored;
  }

  lemma {:induction false} ErasingOn(image: Image, internal: seq<byte>, events: seq<Event>, size: u32, i: nat)
    requires Sound(image) && |internal| == FIRMWARE_SIZE && Roomy(image, internal, events)
    requires Fitting(size) && i <= size / SUBSECTOR + 1 && Erasing(SysAfter(image, internal, events), size, 0)
    ensures var all := events + Rounds(i);
            var z := SysAfter(image, internal, all);
            Roomy(image, internal, all) && Erasing(z, size, i) && Flag(z.v) == Flag(SysAfter(image, internal, events).v)
  {
    hide Erasing, SysAfter, Fitting, Flag, After, Room, Bounded, Roomy;
    if i == 0 {
      assert events + Rounds(0) == events;
    } else {
      ErasingOn(image, internal, events, size, i - 1);
      var front := events + Rounds(i - 1);
      NextEvent(image, internal, front, Round(NoFault));
      Erases(SysAfter(image, internal, front), size, i - 1, internal);
      assert front + [Round(NoFault)] == events + Rounds(i);
    }
  }

  /** An upload is declared, and its erasure ends. */
  lemma ErasureRuns(image: Image, internal: seq<byte>, events: seq<Event>, size: u32)
    requires Sound(image) && |internal| == FIRMWARE_SIZE && Fitting(size) && Roomy(image, internal, events)
    requires var y := SysAfter(image, internal, events); !y.r.backup.busy && State(y.r.buffer.bin) != ERASING
    ensures Roomy(image, internal, events + Erasure(size))
    ensures var y, z := SysAfter(image, internal, events), SysAfter(image, internal, events + Erasure(size));
            Waiting(z, size) && (FlagOf(y.config) == 0 ==> Flag(z.v) == Flag(y.v))
  {
    hide Erasing, Waiting, SysAfter, Fitting, Flag, After, Room, Bounded, FlagOf, Roomy;
    var y, n := SysAfter(image, internal, events), size / SUBSECTOR + 1;
    var begun := events + [Opening(size)];
    NextEvent(image, internal, events, Opening(size));
    Opens(y, size, internal);
    ErasingOn(image, internal, begun, size, n);
    var erased := begun + Rounds(n);
    NextEvent(image, internal, erased, Round(NoFault));
    EndsErasing(SysAfter(image, internal, erased), size, internal);
    assert erased + [Round(NoFault)] == events + Erasure(size);
  }

  /** The upload is copied over the backup. */
  lemma UpdateRuns(image: Image, internal: seq<byte>, size: u32)
    requires Sound(image) && |internal| == FIRMWARE_SIZE && LIMIT <= size && Fitting(size)
    ensures var z := SysAfter(image, internal, Installing(size));
            && Roomy(image, internal, Installing(size))
            && Idle(z) && State(z.r.buffer.bin) == VALID && Flag(z.v) == FlagLeftBy(size, WORD)
  {
    hide Waiting, Stocked, SysAfter, Fitting, Flag, After, Room, Bounded, FlagLeftBy, Idle, Roomy;
    var events := Erasure(size);
    var data, update := Data(PartOf(0, WORD)), Event.Update(Some(Some(ToBackup)), 0);
    Rested(image, internal);
    NoneRoomy(image, internal);
    ErasureRuns(image, internal, [], size);
    assert [] + events == events;
    NextEvent(image, internal, events, data);
    WordArrives(SysAfter(image, internal, events), size, internal);
    NextEvent(image, internal, events + [data], End);
    Ends(SysAfter(image, internal, events + [data]), size, internal);
    NextEvent(image, internal, events + [data] + [End], update);
    Updates(SysAfter(image, internal, events + [data] + [End]), size, internal);
    assert events + [data] + [End] + [update] == Installing(size);
  }

  lemma NoneRoomy(image: Image, internal: seq<byte>)
    ensures Roomy(image, internal, [])
  {
  }

  lemma WordArrives(y: Sys, size: u32, internal: seq<byte>)
    requires Waiting(y, size) && Bounded(y.r, internal)
    ensures Room(Data(PartOf(0, WORD)), y) && Stocked(After(y, Data(PartOf(0, WORD)), internal).to, size, INVALID)
  {
    hide After, Room, Bounded, XorOn, Le32, Anded, PageBlank, Marked;
    Stores(y, 0, WORD, internal);
    var w := Marked(y.v, y.r.buffer.bin);
    LowKept(y.v, w);
    WordStored(w);
  }

  /** The erasure of the next upload begins with a flag on the flash that nobody
      has set, for every declared size that reaches the configuration and whose
      update stays below the journal. From 4 MiB + 1 on it is the first word of the
      upload. */
  lemma Loses(image: Image, internal: seq<byte>, size: u32)
    requires Sound(image) && |internal| == FIRMWARE_SIZE && LIMIT <= size && Fitting(size)
    ensures var v := SysAfter(image, internal, Losing(size)).v;
            && Roomy(image, internal, Losing(size))
            && State(Stored(v, Buffer)) == ERASING && Flag(v) == FlagLeftBy(size, WORD) && !FlagSafe(v)
            && (size > LIMIT ==> !UpdateSafe(v))
  {
    hide SysAfter, Fitting, After, Room, Bounded, Le32, Stored, UpdateSafe, Roomy;
    UpdateRuns(image, internal, size);
    NextEvent(image, internal, Installing(size), Opening(1));
    Opens(SysAfter(image, internal, Installing(size)), 1, internal);
    if size > LIMIT {
      WordIsOne();
      LosingUnsafe(SysAfter(image, internal, Losing(size)).v);
    }
  }

  /** Parts that leave erased cells as they are, as many as stay below the journal. */
  lemma {:induction false} FillingOn(image: Image, internal: seq<byte>, events: seq<Event>, n: nat)
    requires Sound(image) && |internal| == FIRMWARE_SIZE && Roomy(image, internal, events)
    requires n <= PARTS && Receiving(SysAfter(image, internal, events), 0)
    ensures var all := events + Blanks(n);
            var z := SysAfter(image, internal, all);
            Roomy(image, internal, all) && Receiving(z, n) && Flag(z.v) == Flag(SysAfter(image, internal, events).v)
  {
    hide Receiving, SysAfter, Flag, After, Room, Bounded, Roomy, PartOf, Blank;
    if n == 0 {
      assert events + Blanks(0) == events;
    } else {
      FillingOn(image, internal, events, n - 1);
      var front, e := events + Blanks(n - 1), Data(PartOf(n - 1, Blank(DECODED)));
      NextEvent(image, internal, front, e);
      Fills(SysAfter(image, internal, front), n - 1, internal);
      assert front + [e] == events + Blanks(n);
    }
  }

  /** At 4 MiB the configuration is left blank, which start-up takes for no flag.
      Data that reaches it then still raises one. */
  lemma LosesMore(image: Image, internal: seq<byte>)
    requires Sound(image) && |internal| == FIRMWARE_SIZE
    ensures var v := SysAfter(image, internal, LosingMore()).v;
            Roomy(image, internal, LosingMore()) && State(Stored(v, Buffer)) == ERASING && Flag(v) == 1
  {
    hide SysAfter, After, Room, Bounded, Le32, Stored, FlagOf, Flag, Roomy, PageBlank, PartOf, Blanks;
    var n := CONFIG / DECODED;
    var erased, data := Installing(LIMIT) + Erasure(1), Data(PartOf(n, WORD));
    UpdateRuns(image, internal, LIMIT);
    ErasureRuns(image, internal, Installing(LIMIT), 1);
    FillingOn(image, internal, erased, n);
    var filled := erased + Blanks(n);
    NextEvent(image, internal, filled, data);
    FlagArrives(SysAfter(image, internal, filled), internal);
    NextEvent(image, internal, filled + [data], Opening(1));
    Opens(SysAfter(image, internal, filled + [data]), 1, internal);
    assert filled + [data] + [Opening(1)] == LosingMore();
  }

  lemma FlagArrives(y: Sys, internal: seq<byte>)
    requires Receiving(y, CONFIG / DECODED) && Bounded(y.r, internal) && Flag(y.v) == UNKNOWN
    ensures Room(Data(PartOf(CONFIG / DECODED, WORD)), y)
    ensures var z := After(y, Data(PartOf(CONFIG / DECODED, WORD)), internal).to;
            Idle(z) && State(z.r.buffer.bin) == INVALID && Flag(z.v) == 1
  {
    hide After, Room, Bounded, XorOn, Le32, Anded, Flag, Marked;
    Stores(y, CONFIG / DECODED, WORD, internal);
    FlagStored(Marked(y.v, y.r.buffer.bin));
  }

  // ---- the exact condition ---------------------------------------------------------------

  /** Would start-up find no update scheduled from a buffer that is being, or has
      been, erased? A flag that was never written is none. */
  predicate UpdateSafe(v: Disk) {
    State(Stored(v, Buffer)) == ERASING || State(Stored(v, Buffer)) == ERASED ==> FlagOf(Configured(ConfigOf(v))) == 0
  }

  lemma SafeEither(v: Disk)
    ensures FlagSafe(v) ==> UpdateSafe(v)
    ensures Flag(v) == 1 ==> FlagOf(Configured(ConfigOf(v))) == 1
  {
    hide Le32, Stored, Configured;
    FlagIsConfig(v);
    ConfiguredFlag(ConfigOf(v));
    if Flag(v) == 1 {
      WordTouched(ConfigOf(v));
    }
  }

  lemma WordTouched(c: Config)
    requires FlagOf(c) == 1
    ensures !Untouched(c)
  {
    assert c[0] == c[0..4][0];
    assert c[0] == 1;
  }

  /** On the flash that these lives leave, is the flag safe? */
  predicate Survive(image: Image, internal: seq<byte>, lives: seq<Life>) {
    var g := Lived(false, image, internal, lives);
    Sound(g) && FlagSafe(Contents(g))
  }

  /** Does start-up after them find no update that is not safe? */
  predicate SurviveStart(image: Image, internal: seq<byte>, lives: seq<Life>) {
    var g := Lived(false, image, internal, lives);
    Sound(g) && UpdateSafe(Contents(g))
  }

  /** The promise holds over all lives in which less than `n` bytes are declared,
      and there is room for every event, exactly if `n` is at most 4 MiB, whether
      the flag is read from the flash or after start-up has corrected the
      configuration. */
  lemma FlagExactly(image: Image, internal: seq<byte>, n: nat)
    requires Sound(image) && FlagSafe(Contents(image)) && |internal| == FIRMWARE_SIZE
    ensures (forall lives: seq<Life> | AllDeclaring(lives, n) && AllRoomy(image, internal, lives) :: Survive(image, internal, lives)) <==> n <= LIMIT
    ensures (forall lives: seq<Life> | AllDeclaring(lives, n) && AllRoomy(image, internal, lives) :: SurviveStart(image, internal, lives)) <==> n <= LIMIT
  {
    hide AllDeclaring, AllRoomy, Lived, FlagSafe, UpdateSafe, Contents, Sound;
    if n <= LIMIT {
      forall lives: seq<Life> | AllDeclaring(lives, n) && AllRoomy(image, internal, lives)
        ensures Survive(image, internal, lives) && SurviveStart(image, internal, lives)
      {
        DeclaringLess(lives, n);
        FlagLived(image, internal, lives);
        SafeEither(Contents(Lived(false, image, internal, lives)));
      }
    } else {
      var lives := LastLives(image, internal, n);
      assert !Survive(image, internal, lives) && !SurviveStart(image, internal, lives);
    }
  }

  lemma DeclaringLess(lives: seq<Life>, n: nat)
    requires AllDeclaring(lives, n) && n <= LIMIT
    ensures AllDeclaring(lives, LIMIT)
  {
    forall i, j | 0 <= i < |lives| && 0 <= j < |lives[i].events|
      ensures Declares(lives[i].events[j], LIMIT)
    {
      assert Declaring(lives[i].events, n);
      assert Declares(lives[i].events[j], n);
    }
  }

  /** One life that breaks it. */
  lemma LastLives(image: Image, internal: seq<byte>, n: nat) returns (lives: seq<Life>)
    requires Sound(image) && |internal| == FIRMWARE_SIZE && n > LIMIT
    ensures AllDeclaring(lives, n) && AllRoomy(image, internal, lives)
    ensures !Survive(image, internal, lives) && !SurviveStart(image, internal, lives)
  {
    hide SysAfter, FlagSafe, UpdateSafe, Contents, Sound, LosingMore, LeftBy, Declaring, Roomy;
    var events := LosingMore();
    MoreDeclaring(n);
    var k := LastCut(image, internal, events);
    lives := [Life(events, k)];
    LosesMore(image, internal);
    LosingUnsafe(SysAfter(image, internal, events).v);
    assert lives[..0] == [];
    assert Lived(false, image, internal, lives) == LeftBy(image, internal, events, k);
  }

  lemma MoreDeclaring(n: nat)
    requires n > LIMIT
    ensures Declaring(LosingMore(), n) && LosingMore() != []
  {
    hide PartOf;
  }

  lemma LosingUnsafe(v: Disk)
    requires State(Stored(v, Buffer)) == ERASING && Flag(v) == 1
    ensures !FlagSafe(v) && !UpdateSafe(v)
  {
    hide Le32, Stored, Configured, ConfigOf;
    SafeEither(v);
  }

  /** Power fails after all. */
  lemma LastCut(image: Image, internal: seq<byte>, events: seq<Event>) returns (k: nat)
    requires Sound(image) && |internal| == FIRMWARE_SIZE && events != []
    ensures var g := LeftBy(image, internal, events, k); Sound(g) && Contents(g) == SysAfter(image, internal, events).v
  {
    hide SysAfter, Contents, Sound, Run, RunTo, LastOps, Settled, Bounded;
    var f := ImageAfter(image, internal, events[..|events| - 1]);
    var ops := LastOps(image, internal, events, f);
    k := |ops|;
    RunEnds(f, ops);
    Together(image, internal, events);
    SettledContents(ImageAfter(image, internal, events));
  }
}
