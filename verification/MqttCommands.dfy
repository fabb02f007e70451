/** The commands that bring a new binary into the buffer and put it to use. */
module MqttCommands {
  import opened Bytes
  import opened Options
  import opened NorFlash
  import opened Streams
  import opened Journal
  import opened ExternalMemory
  import opened Binaries
  import opened Plans
  import opened BinaryManager

  const CONFIG_STRUCT := 132 // sizeof(struct_config_ioda)

  // ---- the persisted configuration ----------------------------------------

  /** A `struct_config_ioda`, whose first word is the flash flag. */
  type Config = c: seq<byte> | |c| == CONFIG_STRUCT witness Blank(CONFIG_STRUCT)

  function FlagOf(c: Config): u32 { Le32(c[0..4]) }

  /** `set_flashflag`: the configuration, saved only if it changes. */
  function Flagged(c: Config, val: u32): Config {
    if FlagOf(c) == val then c else ToLe32(val) + c[4..]
  }

  function FlagActs(c: Config, val: u32): seq<Act> {
    if FlagOf(c) == val then [] else [Save(CONFIG, Flagged(c, val))]
  }

  // ---- what start-up makes of the configuration ------------------------------

  const ALIAS := 32 // char alias[64]
  const ALIAS_SIZE := 64

  function WordAt(c: Config, at: nat): u32
    requires at + 4 <= CONFIG_STRUCT
  {
    Le32(c[at..at + 4])
  }

  /** A field that was never written gets its default. The second component says
      whether there has been anything to correct. */
  function FixWord(s: (Config, bool), at: nat, val: u32): (Config, bool)
    requires at + 4 <= CONFIG_STRUCT
  {
    if WordAt(s.0, at) == UNKNOWN then (Splice(s.0, at, ToLe32(val)), true) else s
  }

  function SetWord(c: Config, at: nat, val: u32): Config
    requires at + 4 <= CONFIG_STRUCT
  {
    Splice(c, at, ToLe32(val))
  }

  /** The fields before the alias: flag, autobackup, watchdog and its time, report,
      network, configured, launched. */
  function FixedBefore(s: (Config, bool)): (Config, bool) {
    FixWord(FixWord(FixWord(FixWord(FixWord(FixWord(FixWord(FixWord(s, 0, 0), 4, 0), 8, 1), 12, 30), 16, 0), 20, 1), 24, 0), 28, 0)
  }

  /** The fields behind it: web view and port, time offset and synchronisation,
      border router, restart, automatic jump. */
  function FixedBehind(s: (Config, bool)): (Config, bool) {
    FixWord(FixWord(FixWord(FixWord(FixWord(FixWord(FixWord(s, 104, 1), 108, 80), 112, 0), 116, 1), 120, 0), 124, 0), 128, 300)
  }

  function DefaultsOf(c: Config): Config {
    var before := SetWord(SetWord(SetWord(SetWord(SetWord(SetWord(SetWord(SetWord(c, 0, 0), 4, 0), 8, 1), 12, 30), 16, 0), 20, 1), 24, 0), 28, 0);
    var named: Config := before[ALIAS := 0];
    SetWord(SetWord(SetWord(SetWord(SetWord(SetWord(SetWord(named, 104, 1), 108, 80), 112, 0), 116, 1), 120, 0), 124, 0), 128, 300)
  }

  predicate Printable(x: byte) {
    0x20 <= x < 0x7F
  }

  /** Printable characters, at least one, and then a NUL. */
  predicate Named(c: Config) {
    exists k | ALIAS < k < ALIAS + ALIAS_SIZE :: c[k] == 0 && forall i | ALIAS <= i < k :: Printable(c[i])
  }

  predicate Untouched(c: Config) {
    forall k | 0 <= k < CONFIG_STRUCT :: c[k] == 0xFF || c[k] == 0
  }

  function Corrected(c: Config): (Config, bool) {
    var (d, changed) := FixedBefore((c, false));
    FixedBehind((d, changed || !Named(d)))
  }

  /** `set_defaults`. An alias that is empty or unreadable is not replaced, but the
      configuration is saved for it at every start. */
  function Configured(c: Config): Config {
    if Untouched(c) then DefaultsOf(c) else Corrected(c).0
  }

  function ConfigActs(c: Config): seq<Act> {
    if Untouched(c) || Corrected(c).1 then [Save(CONFIG, Configured(c))] else []
  }

  // ---- and what that is, field by field ----------------------------------------

  /** All words and bytes clear of the one at `at` are the same. */
  predicate SameElsewhere(d: Config, c: Config, at: nat) {
    && (forall x: nat | x + 4 <= CONFIG_STRUCT && (x + 4 <= at || at + 4 <= x) :: WordAt(d, x) == WordAt(c, x))
    && (forall i | 0 <= i < CONFIG_STRUCT && !(at <= i < at + 4) :: d[i] == c[i])
  }

  lemma SetWordIs(c: Config, at: nat, val: u32)
    requires at + 4 <= CONFIG_STRUCT
    ensures var d := SetWord(c, at, val); WordAt(d, at) == val && SameElsewhere(d, c, at)
  {
    hide Le32, ToLe32, Splice;
    var d, word := SetWord(c, at, val), ToLe32(val);
    SpliceSlice(c, at, word, at, at + 4);
    assert word[at - at..at + 4 - at] == word;
    forall x: nat | x + 4 <= CONFIG_STRUCT && (x + 4 <= at || at + 4 <= x)
      ensures WordAt(d, x) == WordAt(c, x)
    {
      SpliceSlice(c, at, word, x, x + 4);
    }
    forall i | 0 <= i < CONFIG_STRUCT && !(at <= i < at + 4)
      ensures d[i] == c[i]
    {
      SpliceAt(c, at, word, i);
    }
  }

  /** The word `x`, or `val` if it was never written. */
  function Given(x: u32, val: u32): u32 {
    if x == UNKNOWN then val else x
  }

  lemma FixWordIs(s: (Config, bool), at: nat, val: u32)
    requires at + 4 <= CONFIG_STRUCT
    ensures var (d, changed) := FixWord(s, at, val);
            && WordAt(d, at) == Given(WordAt(s.0, at), val) && SameElsewhere(d, s.0, at)
            && changed == (s.1 || WordAt(s.0, at) == UNKNOWN) && (!changed ==> d == s.0)
  {
    hide WordAt, Splice, ToLe32, SameElsewhere;
    SetWordIs(s.0, at, val);
    SameEverywhere(s.0, at);
  }

  lemma SameEverywhere(c: Config, at: nat)
    ensures SameElsewhere(c, c, at)
  {
    hide WordAt;
  }

  predicate NoneMissingBefore(c: Config) {
    && WordAt(c, 0) != UNKNOWN && WordAt(c, 4) != UNKNOWN && WordAt(c, 8) != UNKNOWN && WordAt(c, 12) != UNKNOWN
    && WordAt(c, 16) != UNKNOWN && WordAt(c, 20) != UNKNOWN && WordAt(c, 24) != UNKNOWN && WordAt(c, 28) != UNKNOWN
  }

  predicate NoneMissingBehind(c: Config) {
    && WordAt(c, 104) != UNKNOWN && WordAt(c, 108) != UNKNOWN && WordAt(c, 112) != UNKNOWN && WordAt(c, 116) != UNKNOWN
    && WordAt(c, 120) != UNKNOWN && WordAt(c, 124) != UNKNOWN && WordAt(c, 128) != UNKNOWN
  }

  lemma FixedBeforeIs(s: (Config, bool))
    ensures var c, (d, changed) := s.0, FixedBefore(s);
            && WordAt(d, 0) == Given(WordAt(c, 0), 0) && WordAt(d, 4) == Given(WordAt(c, 4), 0) && WordAt(d, 8) == Given(WordAt(c, 8), 1)
            && WordAt(d, 12) == Given(WordAt(c, 12), 30) && WordAt(d, 16) == Given(WordAt(c, 16), 0) && WordAt(d, 20) == Given(WordAt(c, 20), 1)
            && WordAt(d, 24) == Given(WordAt(c, 24), 0) && WordAt(d, 28) == Given(WordAt(c, 28), 0)
            && (forall x | 32 <= x <= 128 :: WordAt(d, x) == WordAt(c, x)) && (forall i | 32 <= i < CONFIG_STRUCT :: d[i] == c[i])
            && (changed <==> s.1 || !NoneMissingBefore(c)) && (!changed ==> d == c)
  {
    hide FixWord, WordAt, Given;
    FixWordIs(s, 0, 0);
    var s1 := FixWord(s, 0, 0);
    FixWordIs(s1, 4, 0);
    var s2 := FixWord(s1, 4, 0);
    FixWordIs(s2, 8, 1);
    var s3 := FixWord(s2, 8, 1);
    FixWordIs(s3, 12, 30);
    var s4 := FixWord(s3, 12, 30);
    FixWordIs(s4, 16, 0);
    var s5 := FixWord(s4, 16, 0);
    FixWordIs(s5, 20, 1);
    var s6 := FixWord(s5, 20, 1);
    FixWordIs(s6, 24, 0);
    var s7 := FixWord(s6, 24, 0);
    FixWordIs(s7, 28, 0);
  }

  lemma FixedBehindIs(s: (Config, bool))
    ensures var c, (d, changed) := s.0, FixedBehind(s);
            && WordAt(d, 104) == Given(WordAt(c, 104), 1) && WordAt(d, 108) == Given(WordAt(c, 108), 80) && WordAt(d, 112) == Given(WordAt(c, 112), 0)
            && WordAt(d, 116) == Given(WordAt(c, 116), 1) && WordAt(d, 120) == Given(WordAt(c, 120), 0) && WordAt(d, 124) == Given(WordAt(c, 124), 0)
            && WordAt(d, 128) == Given(WordAt(c, 128), 300)
            && (forall x | 0 <= x <= 100 :: WordAt(d, x) == WordAt(c, x)) && (forall i | 0 <= i < 104 :: d[i] == c[i])
            && (changed <==> s.1 || !NoneMissingBehind(c)) && (!changed ==> d == c)
  {
    hide FixWord, WordAt, Given;
    FixWordIs(s, 104, 1);
    var s1 := FixWord(s, 104, 1);
    FixWordIs(s1, 108, 80);
    var s2 := FixWord(s1, 108, 80);
    FixWordIs(s2, 112, 0);
    var s3 := FixWord(s2, 112, 0);
    FixWordIs(s3, 116, 1);
    var s4 := FixWord(s3, 116, 1);
    FixWordIs(s4, 120, 0);
    var s5 := FixWord(s4, 120, 0);
    FixWordIs(s5, 124, 0);
    var s6 := FixWord(s5, 124, 0);
    FixWordIs(s6, 128, 300);
  }

  /** Each field keeps its value, or gets the default if it was never written, and
      the alias is left alone. There is something to save exactly if a field was
      never written or the alias is not a name. */
  lemma CorrectedIs(c: Config)
    ensures var (d, changed) := Corrected(c);
            && WordAt(d, 0) == Given(WordAt(c, 0), 0) && WordAt(d, 4) == Given(WordAt(c, 4), 0) && WordAt(d, 8) == Given(WordAt(c, 8), 1)
            && WordAt(d, 12) == Given(WordAt(c, 12), 30) && WordAt(d, 16) == Given(WordAt(c, 16), 0) && WordAt(d, 20) == Given(WordAt(c, 20), 1)
            && WordAt(d, 24) == Given(WordAt(c, 24), 0) && WordAt(d, 28) == Given(WordAt(c, 28), 0)
            && WordAt(d, 104) == Given(WordAt(c, 104), 1) && WordAt(d, 108) == Given(WordAt(c, 108), 80) && WordAt(d, 112) == Given(WordAt(c, 112), 0)
            && WordAt(d, 116) == Given(WordAt(c, 116), 1) && WordAt(d, 120) == Given(WordAt(c, 120), 0) && WordAt(d, 124) == Given(WordAt(c, 124), 0)
            && WordAt(d, 128) == Given(WordAt(c, 128), 300) && (forall i | 32 <= i < 104 :: d[i] == c[i])
            && (changed <==> !NoneMissingBefore(c) || !NoneMissingBehind(c) || !Named(c)) && (!changed ==> d == c)
  {
    hide FixedBefore, FixedBehind, WordAt, Given, Named;
    FixedBeforeIs((c, false));
    var (d, changed) := FixedBefore((c, false));
    SameName(d, c);
    FixedBehindIs((d, changed || !Named(d)));
  }

  lemma SameName(d: Config, c: Config)
    requires forall i | 32 <= i < CONFIG_STRUCT :: d[i] == c[i]
    ensures Named(d) <==> Named(c)
  {
  }

  /** The defaults, of which the alias gets no more than a NUL. */
  lemma DefaultsAre(c: Config)
    ensures var d := DefaultsOf(c);
            && WordAt(d, 0) == 0 && WordAt(d, 4) == 0 && WordAt(d, 8) == 1 && WordAt(d, 12) == 30
            && WordAt(d, 16) == 0 && WordAt(d, 20) == 1 && WordAt(d, 24) == 0 && WordAt(d, 28) == 0
            && WordAt(d, 104) == 1 && WordAt(d, 108) == 80 && WordAt(d, 112) == 0 && WordAt(d, 116) == 1
            && WordAt(d, 120) == 0 && WordAt(d, 124) == 0 && WordAt(d, 128) == 300
            && d[32] == 0 && (forall i | 32 < i < 104 :: d[i] == c[i])
  {
    hide SetWord, WordAt;
    var c1 := SetWord(c, 0, 0);
    var c2 := SetWord(c1, 4, 0);
    var c3 := SetWord(c2, 8, 1);
    var c4 := SetWord(c3, 12, 30);
    var c5 := SetWord(c4, 16, 0);
    var c6 := SetWord(c5, 20, 1);
    var c7 := SetWord(c6, 24, 0);
    var c8 := SetWord(c7, 28, 0);
    SetWordIs(c, 0, 0);
    SetWordIs(c1, 4, 0);
    SetWordIs(c2, 8, 1);
    SetWordIs(c3, 12, 30);
    SetWordIs(c4, 16, 0);
    SetWordIs(c5, 20, 1);
    SetWordIs(c6, 24, 0);
    SetWordIs(c7, 28, 0);
    NoAlias(c8);
    DefaultsBehind(c8[ALIAS := 0]);
  }

  lemma NoAlias(c: Config)
    ensures forall x | 0 <= x <= 28 :: WordAt(c[ALIAS := 0], x) == WordAt(c, x)
  {
    hide Le32;
    forall x | 0 <= x <= 28
      ensures WordAt(c[ALIAS := 0], x) == WordAt(c, x)
    {
      assert c[ALIAS := 0][x..x + 4] == c[x..x + 4];
    }
  }

  lemma DefaultsBehind(c: Config)
    ensures var d := SetWord(SetWord(SetWord(SetWord(SetWord(SetWord(SetWord(c, 104, 1), 108, 80), 112, 0), 116, 1), 120, 0), 124, 0), 128, 300);
            && WordAt(d, 104) == 1 && WordAt(d, 108) == 80 && WordAt(d, 112) == 0 && WordAt(d, 116) == 1
            && WordAt(d, 120) == 0 && WordAt(d, 124) == 0 && WordAt(d, 128) == 300
            && (forall x | 0 <= x <= 100 :: WordAt(d, x) == WordAt(c, x)) && (forall i | 0 <= i < 104 :: d[i] == c[i])
  {
    hide SetWord, WordAt;
    var n1 := SetWord(c, 104, 1);
    var n2 := SetWord(n1, 108, 80);
    var n3 := SetWord(n2, 112, 0);
    var n4 := SetWord(n3, 116, 1);
    var n5 := SetWord(n4, 120, 0);
    var n6 := SetWord(n5, 124, 0);
    SetWordIs(c, 104, 1);
    SetWordIs(n1, 108, 80);
    SetWordIs(n2, 112, 0);
    SetWordIs(n3, 116, 1);
    SetWordIs(n4, 120, 0);
    SetWordIs(n5, 124, 0);
    SetWordIs(n6, 128, 300);
  }

  /** The flag survives, unless it was never written or nothing was. */
  lemma ConfiguredFlag(c: Config)
    ensures FlagOf(Configured(c)) == if Untouched(c) || FlagOf(c) == UNKNOWN then 0 else FlagOf(c)
  {
    hide Corrected, DefaultsOf, Le32, Untouched, Named, NoneMissingBefore, NoneMissingBehind;
    DefaultsAre(c);
    CorrectedIs(c);
  }

  /** An alias that is empty or unreadable is never corrected, so the configuration
      is saved at every start. The defaults leave it empty. */
  lemma UnnamedSaved(c: Config)
    ensures !Named(c) ==> ConfigActs(c) == [Save(CONFIG, Configured(c))]
    ensures !Named(DefaultsOf(c))
  {
    hide Corrected, DefaultsOf, WordAt, Untouched, NoneMissingBefore, NoneMissingBehind;
    DefaultsAre(c);
    CorrectedIs(c);
  }

  function SavingConfig(v: Disk, c: seq<byte>): Disk
    requires |c| == CONFIG_STRUCT
  {
    Splice(v, CONFIG, c)
  }

  lemma SavingConfigKeeps(v: Disk, c: seq<byte>)
    requires |c| == CONFIG_STRUCT
    ensures Flag(SavingConfig(v, c)) == Le32(c[0..4]) && ConfigOf(SavingConfig(v, c)) == c
    ensures SavingConfig(v, c)[..CONFIG] == v[..CONFIG]
    ensures forall e :: Stored(SavingConfig(v, c), e) == Stored(v, e)
  {
    hide Splice, Le32;
    SpliceSlice(v, CONFIG, c, 0, CONFIG);
    SpliceSlice(v, CONFIG, c, CONFIG, CONFIG + 4);
    SpliceSlice(v, CONFIG, c, CONFIG, CONFIG + CONFIG_STRUCT);
    assert c[0..CONFIG_STRUCT] == c;
    forall e
      ensures Stored(SavingConfig(v, c), e) == Stored(v, e)
    {
      SpliceSlice(v, CONFIG, c, Place(e), Place(e) + STRUCT);
    }
  }

  function ConfigOf(v: Disk): Config {
    v[CONFIG..CONFIG + CONFIG_STRUCT]
  }

  /** Lowering the flag is always safe; raising it is while the buffer is neither
      being erased nor erased. */
  lemma FlagGood(v: Disk, o: Origin, c: seq<byte>)
    requires Good(v, o) && |c| == CONFIG_STRUCT
    requires Le32(c[0..4]) == 0 || (State(Stored(v, Buffer)) != ERASING && State(Stored(v, Buffer)) != ERASED)
    ensures Good(SavingConfig(v, c), o)
  {
    hide Le32, SavingConfig, Stored;
    SavingConfigKeeps(v, c);
    var w, n := SavingConfig(v, c), Size(Stored(v, Backup));
    if n <= PARTITION {
      SameSlices(w, v, CONFIG, BACKUP, BACKUP + n);
    }
  }

  /** What start-up makes of the configuration is safe to save. */
  lemma ConfiguringGood(v: Disk, o: Origin)
    requires Good(v, o)
    ensures var c := Configured(ConfigOf(v)); Good(SavingConfig(v, c), o) && forall e :: Stored(SavingConfig(v, c), e) == Stored(v, e)
  {
    hide Le32, SavingConfig, Stored, Configured, ConfigOf, Durable, Untouched;
    var c := Configured(ConfigOf(v));
    FlagIsConfig(v);
    ConfiguredFlag(ConfigOf(v));
    FlagGood(v, o, c);
    SavingConfigKeeps(v, c);
  }

  /** The repair of the descriptions leaves the configuration alone. */
  lemma RestoredConfig(v: Disk)
    ensures ConfigOf(Restored(AllFixed(v))) == ConfigOf(v)
  {
    hide Saving, Stored, Fixed, Splice, ConfigOf;
    var v0 := Saving(v, Bootloader, Fixed(Stored(v, Bootloader)));
    var v1 := Saving(v0, Firmware, Fixed(Stored(v, Firmware)));
    var v2 := Saving(v1, Backup, Fixed(Stored(v, Backup)));
    var v3 := Saving(v2, Buffer, Fixed(Stored(v, Buffer)));
    ConfigKept(v, Bootloader, Fixed(Stored(v, Bootloader)));
    ConfigKept(v0, Firmware, Fixed(Stored(v, Firmware)));
    ConfigKept(v1, Backup, Fixed(Stored(v, Backup)));
    ConfigKept(v2, Buffer, Fixed(Stored(v, Buffer)));
    if State(Stored(v3, Buffer)) == ERASING {
      var n := (PARTITION / SUBSECTOR + 1) * SUBSECTOR;
      WipedConfig(v3, n);
      ConfigKept(Splice(v3, BUFFER, Blank(n)), Buffer, WithState(Stored(v3, Buffer), ERASED));
    }
  }

  lemma WipedConfig(v: Disk, n: nat)
    requires n <= CONFIG
    ensures ConfigOf(Splice(v, BUFFER, Blank(n))) == ConfigOf(v)
  {
    hide Splice;
    SpliceSlice(v, BUFFER, Blank(n), CONFIG, CONFIG + CONFIG_STRUCT);
  }

  class Configurator {
    const extmem: ExtMem
    var config: Config

    /** Start-up: loads the configuration and corrects it. */
    constructor Init(e: ExtMem)
      requires e.Valid() && Settled(e.extflash.mem)
      modifies e.extflash, e.scratch
      ensures extmem == e && Settled(e.extflash.mem) && Synced()
      ensures config == Configured(ConfigOf(old(e.extflash.mem[..INDEX])))
      ensures Atomic(old(e.extflash.State()), e.extflash.State())
      ensures Disk() == SavingConfig(old(e.extflash.mem[..INDEX]), config)
      ensures Planned(old(e.extflash.State()), ConfigActs(ConfigOf(old(e.extflash.mem[..INDEX]))), e.extflash.State())
    {
      hide Splice, Configured, ConfigActs, Atomic, Planned, SavingConfig, Settled;
      extmem := e;
      config := Blank(CONFIG_STRUCT);
      new;
      var data := new byte[CONFIG_STRUCT];
      ghost var was := data[..];
      extmem.ReadData(CONFIG, 0, data, CONFIG_STRUCT);
      SpliceAll(was, extmem.extflash.mem[CONFIG..CONFIG + CONFIG_STRUCT]);
      SliceBelow(extmem.extflash.mem, CONFIG, CONFIG + CONFIG_STRUCT);
      config := data[..];
      var rc := SetDefaults(false);
    }

    /** Gives default values to the fields that have none, or if forced to all. */
    method SetDefaults(forced: bool) returns (rc: int)
      requires extmem.Valid() && Settled(extmem.extflash.mem) && Synced()
      modifies this, extmem.extflash, extmem.scratch
      ensures Settled(extmem.extflash.mem) && Synced()
      ensures config == if forced then DefaultsOf(old(config)) else Configured(old(config))
      ensures Atomic(old(Chip()), Chip())
      ensures Disk() == SavingConfig(old(Disk()), config)
      ensures Planned(old(Chip()), if forced then [Save(CONFIG, config)] else ConfigActs(old(config)), Chip())
      ensures rc == if forced || ConfigActs(old(config)) != [] then 1 else 0
    {
      hide Atomic, SecureWriteOps, Did, Settled, Splice, Clean, Contents, ConfigOf, Planned, PlanOps, Played, SavingConfig, DefaultsOf,
        FixedBefore, FixedBehind, Named;
      StandStill(extmem.extflash.State());
      PlannedNothing(extmem.extflash.State());
      SavingConfigSame(extmem.extflash.mem[..INDEX]);
      ghost var c := config;
      var erase, correct := false, false;
      if !forced {
        erase := IsUntouched();
        if !erase {
          var before := CorrectBefore();
          var named := IsNamed();
          var behind := CorrectBehind(before || !named);
          correct := behind;
          CorrectedIs(c);
        }
      }
      if erase || forced || correct {
        if erase || forced {
          config := DefaultsOf(config);
        }
        SaveConfig();
        return 1;
      }
      return 0;
    }

    /** Is every byte either all ones or all zeros? */
    method IsUntouched() returns (r: bool)
      ensures r == Untouched(config)
    {
      var x := 0;
      for i := 0 to CONFIG_STRUCT
        invariant x <= i && (x == i <==> forall k | 0 <= k < i :: config[k] == 0xFF || config[k] == 0)
      {
        if config[i] == 0xFF || config[i] == 0 {
          x := x + 1;
        }
      }
      r := x == CONFIG_STRUCT;
    }

    /** Is the alias made of printable characters and a NUL? */
    method IsNamed() returns (r: bool)
      ensures r == Named(config)
    {
      var countPrint, countNull := 0, 0;
      while countPrint < ALIAS_SIZE && Printable(config[ALIAS + countPrint])
        invariant countPrint <= ALIAS_SIZE && forall j | ALIAS <= j < ALIAS + countPrint :: Printable(config[j])
      {
        countPrint := countPrint + 1;
      }
      if countPrint < ALIAS_SIZE && config[ALIAS + countPrint] == 0 {
        countNull := 1;
      }
      NamedIs(config, countPrint);
      r := countPrint > 0 && countNull > 0;
    }

    method CorrectWord(at: nat, val: u32, changed: bool) returns (correct: bool)
      requires at + 4 <= CONFIG_STRUCT
      modifies this
      ensures (config, correct) == FixWord((old(config), changed), at, val)
    {
      hide Le32;
      correct := changed;
      if WordAt(config, at) == UNKNOWN {
        config := Splice(config, at, ToLe32(val));
        correct := true;
      }
    }

    method CorrectBefore() returns (correct: bool)
      modifies this
      ensures (config, correct) == FixedBefore((old(config), false))
    {
      hide FixWord;
      correct := CorrectWord(0, 0, false);
      correct := CorrectWord(4, 0, correct);
      correct := CorrectWord(8, 1, correct);
      correct := CorrectWord(12, 30, correct);
      correct := CorrectWord(16, 0, correct);
      correct := CorrectWord(20, 1, correct);
      correct := CorrectWord(24, 0, correct);
      correct := CorrectWord(28, 0, correct);
    }

    method CorrectBehind(changed: bool) returns (correct: bool)
      modifies this
      ensures (config, correct) == FixedBehind((old(config), changed))
    {
      hide FixWord;
      correct := CorrectWord(104, 1, changed);
      correct := CorrectWord(108, 80, correct);
      correct := CorrectWord(112, 0, correct);
      correct := CorrectWord(116, 1, correct);
      correct := CorrectWord(120, 0, correct);
      correct := CorrectWord(124, 0, correct);
      correct := CorrectWord(128, 300, correct);
    }

    ghost function Disk(): Disk
      reads extmem.extflash
    {
      extmem.extflash.mem[..INDEX]
    }

    ghost function Chip(): Chip
      reads extmem.extflash
    {
      extmem.extflash.State()
    }

    /** Does the flash hold what RAM holds? */
    ghost predicate Synced()
      reads this, extmem.extflash
    {
      ConfigOf(Disk()) == config
    }

    function Flashflag(): u32
      reads this
    {
      FlagOf(config)
    }

    /** Sets the flag, leaves every other field alone, and saves if that is a change. */
    method SetFlashflag(val: u32)
      requires extmem.Valid() && Settled(extmem.extflash.mem)
      modifies this, extmem.extflash, extmem.scratch
      ensures Settled(extmem.extflash.mem) && Le32(config[0..4]) == val && config[4..] == old(config)[4..]
      ensures Atomic(old(Chip()), Chip())
      ensures config == Flagged(old(config), val) && Planned(old(Chip()), FlagActs(old(config), val), Chip())
      ensures old(Synced()) ==> Synced() && Disk() == SavingConfig(old(Disk()), config)
    {
      hide Atomic, SecureWriteOps, Did, Settled, Splice, Clean, Contents, Le32, ConfigOf, Planned, PlanOps, Played;
      StandStill(extmem.extflash.State());
      PlannedNothing(extmem.extflash.State());
      SavingConfigSame(extmem.extflash.mem[..INDEX]);
      if val != Flashflag() {
        var word := ToLe32(val);
        config := word + config[4..];
        assert config[0..4] == word && config[4..] == old(config)[4..];
        SaveConfig();
      }
    }

    method SaveConfig()
      requires extmem.Valid() && Settled(extmem.extflash.mem)
      modifies extmem.extflash, extmem.scratch
      ensures Settled(extmem.extflash.mem) && Synced()
      ensures Atomic(old(Chip()), Chip())
      ensures Disk() == SavingConfig(old(Disk()), config)
      ensures Planned(old(Chip()), [Save(CONFIG, config)], Chip())
    {
      hide Atomic, SecureWriteOps, Did, Settled, Splice, Clean, Contents, ConfigOf, Planned, PlanOps, Played;
      ghost var s := extmem.extflash.State();
      var c := config;
      var data := new byte[CONFIG_STRUCT](i requires 0 <= i < CONFIG_STRUCT => c[i]);
      assert data[..CONFIG_STRUCT] == c;
      var rc := extmem.SecureWrite(CONFIG, 0, data, CONFIG_STRUCT);
      SecureIsAtomic(s, CONFIG, c, extmem.extflash.State());
      PlannedOne(s, Save(CONFIG, c), extmem.extflash.State());
      AtomicSettled(s, extmem.extflash.State());
      SavingConfigKeeps(s.mem[..INDEX], c);
    }
  }

  lemma NamedIs(c: Config, n: nat)
    requires n <= ALIAS_SIZE && (forall j | ALIAS <= j < ALIAS + n :: Printable(c[j])) && (n < ALIAS_SIZE ==> !Printable(c[ALIAS + n]))
    ensures Named(c) <==> 0 < n < ALIAS_SIZE && c[ALIAS + n] == 0
  {
    if Named(c) {
      var k :| ALIAS < k < ALIAS + ALIAS_SIZE && c[k] == 0 && forall i | ALIAS <= i < k :: Printable(c[i]);
      assert k == ALIAS + n;
    }
  }

  lemma SavingConfigSame(v: Disk)
    ensures SavingConfig(v, ConfigOf(v)) == v
  {
  }

  // ---- requests --------------------------------------------------------------

  datatype Reply =
    | Done | MissingLabel | EraseInProgress | GeneralError | CrcError | UnexpectedPart(required: nat)
    | UnknownComponent | BinMissing | BinInvalid | AutobackupEnabled

  datatype StartRequest = StartRequest(size: Option<u32>, crc: Option<u32>, buildId: Option<seq<byte>>, version: Option<seq<byte>>,
                                       timestamp: Option<u32>, usrVersion: Option<seq<byte>>, usrName: Option<seq<byte>>)

  const DECODED := 1024 // what the buffer for a decoded part holds

  /** A part of the upload; `data` is what base64 stands for, if it is well formed. */
  datatype Part = Part(part: Option<u32>, size: Option<u32>, data: Option<Option<seq<byte>>>, crc: Option<u32>)

  datatype Target = ToFirmware | ToBackup

  /** `strncpy` of `n - 1` characters into a field of `n`. */
  function Copying(b: Bin, at: nat, n: nat, text: seq<byte>): Bin
    requires at + n <= STRUCT && n > 0
  {
    var t := CString(text);
    seq(STRUCT, i requires 0 <= i < STRUCT => if at <= i < at + n - 1 then (if i - at < |t| then t[i - at] else 0) else b[i])
  }

  function Optionally(b: Bin, at: nat, n: nat, text: Option<seq<byte>>): Bin
    requires at + n <= STRUCT && n > 0
  {
    if text.Some? then Copying(b, at, n, text.value) else b
  }

  /** The description built from a request in uninitialised memory. */
  function Described(q: StartRequest, memory: Bin): Bin
    requires q.size.Some? && q.crc.Some? && q.buildId.Some? && q.version.Some?
  {
    var b1 := Splice(Splice(Defaults(memory), 0, ToLe32(q.size.value)), 4, ToLe32(q.crc.value));
    var b2 := Copying(Copying(b1, 8, 48, q.buildId.value), 56, 32, q.version.value);
    var b3: Bin := if q.timestamp.Some? then Splice(b2, 88, ToLe32(q.timestamp.value)) else b2;
    Optionally(Optionally(b3, 92, 32, q.usrVersion), 124, 32, q.usrName)
  }

  /** A field that holds a text: as much of it as fits before the last byte, then
      zeros. The last byte is what it was before. */
  predicate Holds(f: seq<byte>, text: seq<byte>, last: byte)
    requires f != []
  {
    var t, m := CString(text), |f| - 1;
    (forall i | 0 <= i < m :: f[i] == if i < |t| then t[i] else 0) && f[m] == last
  }

  /** Does `b` say what the request says? The last byte of each text is left as it
      lay in memory. */
  predicate Describes(b: seq<byte>, q: StartRequest, memory: Bin)
    requires |b| >= 156 && q.size.Some? && q.crc.Some? && q.buildId.Some? && q.version.Some?
  {
    && Le32(b[0..4]) == q.size.value && Le32(b[4..8]) == q.crc.value
    && Holds(b[8..56], q.buildId.value, memory[55]) && Holds(b[56..88], q.version.value, memory[87])
    && Le32(b[88..92]) == (if q.timestamp.Some? then q.timestamp.value else 0)
    && (if q.usrVersion.Some? then Holds(b[92..124], q.usrVersion.value, memory[123]) else b[92] == 0)
    && (if q.usrName.Some? then Holds(b[124..156], q.usrName.value, memory[155]) else b[124] == 0)
  }

  /** A text that is shorter than its field is read back whole, and any other up to
      the last byte exactly if that happens to be 0. */
  lemma HoldsText(f: seq<byte>, text: seq<byte>, last: byte)
    requires f != [] && Holds(f, text, last)
    ensures var t, m := CString(text), |f| - 1;
            if |t| < m || last == 0 then CString(f) == t[..Min(|t|, m)] else CString(f) == t[..m] + [last]
  {
    hide CString;
    var t, m := CString(text), |f| - 1;
    CStringIs(text);
    if |t| < m {
      CStringEnds(f, |t|);
    } else {
      CStringEnds(f, if last == 0 then m else m + 1);
    }
  }

  lemma CopyingHolds(b: Bin, at: nat, n: nat, text: seq<byte>)
    requires at + n <= STRUCT && n > 0
    ensures var d := Copying(b, at, n, text); Holds(d[at..at + n], text, b[at + n - 1]) && SameAround(d, b, at, at + n - 1)
  {
    hide CString;
  }

  predicate SameAround(d: Bin, b: Bin, lo: nat, hi: nat) {
    forall i | 0 <= i < STRUCT && !(lo <= i < hi) :: d[i] == b[i]
  }

  lemma NumbersStored(memory: Bin, size: seq<byte>, crc: seq<byte>)
    requires |size| == |crc| == 4
    ensures var b: Bin := Splice(Splice(Defaults(memory), 0, size), 4, crc);
            && b[0..4] == size && b[4..8] == crc && b[88..92] == [0, 0, 0, 0] && b[92] == b[124] == b[156] == 0
            && b[55] == memory[55] && b[87] == memory[87] && b[123] == memory[123] && b[155] == memory[155]
  {
    var a := Splice(Defaults(memory), 0, size);
    var b := Splice(a, 4, crc);
    assert a[0..4] == size && b[0..4] == a[0..4] && b[4..8] == crc;
    forall i | 8 <= i < STRUCT
      ensures b[i] == Defaults(memory)[i]
    {
      SpliceAt(Defaults(memory), 0, size, i);
      SpliceAt(a, 4, crc, i);
    }
    assert b[88..92] == [b[88], b[89], b[90], b[91]];
  }

  lemma StampStored(b: Bin, timestamp: Option<u32>)
    ensures var d: Bin := if timestamp.Some? then Splice(b, 88, ToLe32(timestamp.value)) else b;
            && (timestamp.Some? ==> Le32(d[88..92]) == timestamp.value) && (timestamp.None? ==> d == b) && SameAround(d, b, 88, 92)
  {
    hide Le32, ToLe32;
    if timestamp.Some? {
      var d: Bin := Splice(b, 88, ToLe32(timestamp.value));
      assert d[88..92] == ToLe32(timestamp.value);
    }
  }

  lemma OptionalHolds(b: Bin, at: nat, n: nat, text: Option<seq<byte>>)
    requires at + n <= STRUCT && n > 0
    ensures var d := Optionally(b, at, n, text);
            (text.Some? ==> Holds(d[at..at + n], text.value, b[at + n - 1])) && (text.None? ==> d == b) && SameAround(d, b, at, at + n - 1)
  {
    hide Copying, Holds;
    if text.Some? {
      CopyingHolds(b, at, n, text.value);
    }
  }

  /** The description says what the request says. */
  lemma DescribedSays(q: StartRequest, memory: Bin)
    requires q.size.Some? && q.crc.Some? && q.buildId.Some? && q.version.Some?
    ensures var b := Described(q, memory); Describes(b, q, memory) && Size(b) == q.size.value && State(b) == INVALID
  {
    hide Le32, ToLe32, CString, Copying, Optionally, Holds, Defaults, Splice;
    var size, crc := ToLe32(q.size.value), ToLe32(q.crc.value);
    var b1 := Splice(Splice(Defaults(memory), 0, size), 4, crc);
    NumbersStored(memory, size, crc);
    var b := Copying(b1, 8, 48, q.buildId.value);
    CopyingHolds(b1, 8, 48, q.buildId.value);
    var b2 := Copying(b, 56, 32, q.version.value);
    CopyingHolds(b, 56, 32, q.version.value);
    var b3: Bin := if q.timestamp.Some? then Splice(b2, 88, ToLe32(q.timestamp.value)) else b2;
    StampStored(b2, q.timestamp);
    var b4 := Optionally(b3, 92, 32, q.usrVersion);
    OptionalHolds(b3, 92, 32, q.usrVersion);
    var d := Optionally(b4, 124, 32, q.usrName);
    OptionalHolds(b4, 124, 32, q.usrName);
    assert d[0..4] == size && d[4..8] == crc && d[8..56] == b[8..56] && d[56..88] == b2[56..88];
    assert d[88..92] == b3[88..92] && b1[88..92] == b2[88..92] && d[92..124] == b4[92..124];
    NoWord();
  }

  lemma DescribesMeta(a: Bin, b: Bin, q: StartRequest, memory: Bin)
    requires q.size.Some? && q.crc.Some? && q.buildId.Some? && q.version.Some? && Describes(a, q, memory) && Meta(a) == Meta(b)
    ensures Describes(b, q, memory)
  {
    hide Le32, Holds;
    assert forall i | 0 <= i < 156 :: a[i] == Meta(a)[i] == Meta(b)[i] == b[i];
    assert a[0..4] == b[0..4] && a[4..8] == b[4..8] && a[8..56] == b[8..56] && a[56..88] == b[56..88] && a[88..92] == b[88..92];
    assert a[92..124] == b[92..124] && a[124..156] == b[124..156];
  }

  // ---- what an upload is to bring about --------------------------------------

  /** Is this part complete, undamaged and the next one? */
  predicate Acceptable(p: Part, next: nat) {
    && p.part.Some? && p.size.Some? && p.data.Some? && p.crc.Some? && p.data.value.Some? && |p.data.value.value| <= DECODED
    && p.crc.value == XorAll(p.data.value.value) && p.part.value == next
  }

  /** The accepted data of a series of messages, in order. */
  function Assembled(parts: seq<Part>, next: nat): seq<byte> {
    if parts == [] then []
    else if Acceptable(parts[0], next) then parts[0].data.value.value + Assembled(parts[1..], Next(next))
    else Assembled(parts[1..], next)
  }

  /** Which part is expected after a series of messages? */
  function Expecting(parts: seq<Part>, next: nat): nat {
    if parts == [] then next
    else Expecting(parts[1..], if Acceptable(parts[0], next) then Next(next) else next)
  }

  /** One more message. */
  lemma {:induction false} AssembledMore(parts: seq<Part>, p: Part, next: nat)
    ensures var e := Expecting(parts, next);
            && Assembled(parts + [p], next) == Assembled(parts, next) + (if Acceptable(p, e) then p.data.value.value else [])
            && Expecting(parts + [p], next) == if Acceptable(p, e) then Next(e) else e
  {
    hide Acceptable, Next;
    if parts == [] {
      assert parts + [p] == [p] && [p][1..] == [];
    } else {
      assert (parts + [p])[1..] == parts[1..] + [p];
      AssembledMore(parts[1..], p, if Acceptable(parts[0], next) then Next(next) else next);
    }
  }

  /** A 32-bit counter. */
  function Next(i: nat): nat {
    (i + 1) % 0x1_0000_0000
  }

  /** What an upload in progress has brought about: the buffer starts with the
      accepted bytes, is blank up to the declared size, and its checksum is up
      to date. */
  predicate Assembly(r: Ram, v: Disk, calculated: nat, accepted: seq<byte>) {
    && calculated == XorAll(accepted) && r.written == |accepted| <= Size(r.buffer.bin) < PARTITION
    && if State(r.buffer.bin) == ERASING
       then accepted == [] && r.eraseCounter * SUBSECTOR > Size(r.buffer.bin)
       else BufferHolds(v, accepted, Size(r.buffer.bin))
  }

  /** The buffer starts with `a` and is blank from there up to `n`. */
  predicate BufferHolds(v: Disk, a: seq<byte>, n: nat)
    requires |a| <= n < PARTITION
  {
    v[..|a|] == a && v[|a|..n] == Blank(n - |a|)
  }

  // ---- the whole state, and what each command makes of it -----------------------

  /** Everything in RAM, and the flash below the journal. */
  datatype Sys = Sys(r: Ram, v: Disk, config: Config, next: nat, calculated: nat, received: nat)

  /** A step of the system: the state it leads to, and what it asks of the flash. */
  datatype Step = Step(to: Sys, acts: seq<Act>)

  /** The step that asks `acts` of the flash. */
  function Acting(y: Sys, acts: seq<Act>): Step {
    Step(y.(v := Played(y.v, acts)), acts)
  }

  function StartReply(y: Sys, q: StartRequest): Reply {
    if q.size.None? || q.crc.None? || q.buildId.None? || q.version.None? then MissingLabel
    else if State(y.r.buffer.bin) == ERASING then EraseInProgress
    else Done
  }

  /** `upload/start`: the flag goes down, then the description is taken over and
      marked as being erased. */
  function StartStep(y: Sys, q: StartRequest, memory: Bin): Step {
    if !StartReply(y, q).Done? then Acting(y, [])
    else
      var b := WithState(Described(q, memory), ERASING);
      Acting(Sys(y.r.(buffer := Wrapper(b, true), eraseIndex := 0, eraseCounter := q.size.value / SUBSECTOR + 1, written := 0),
                 y.v, Flagged(y.config, 0), 0, 0, q.crc.value),
             FlagActs(y.config, 0) + [Writing(Buffer, b)])
  }

  function DataReply(p: Part, next: nat): Reply {
    if p.part.None? || p.size.None? || p.data.None? || p.crc.None? then MissingLabel
    else if p.data.value.None? || |p.data.value.value| > DECODED then GeneralError
    else if p.crc.value != XorAll(p.data.value.value) then CrcError
    else if p.part.value != next then UnexpectedPart(next)
    else Done
  }

  lemma ReplyAccepts(p: Part, next: nat)
    ensures DataReply(p, next).Done? <==> Acceptable(p, next)
  {
  }

  /** What storing a part asks of the flash. */
  function StoreActs(b: Bin, written: nat, d: seq<byte>): seq<Act>
    requires BUFFER + written + |d| <= INDEX
  {
    Setting(Buffer, b, INVALID) + [Burn(BUFFER + written, d)]
  }

  /** What storing a part does to the chip `f`: the buffer described by `b`, of
      which so much is written, is marked invalid, and the part is programmed. */
  function PartOps(f: Image, b: Bin, written: nat, d: seq<byte>): seq<Op>
    requires BUFFER + written + |d| <= SIZE
  {
    PlanOps(f, Setting(Buffer, b, INVALID)) + ProgramOps(BUFFER + written, d)
  }

  /** `upload/data`: an acceptable part is programmed behind the others. */
  function DataStep(y: Sys, p: Part): Step
    requires Acceptable(p, y.next) ==> BUFFER + y.r.written + |p.data.value.value| <= INDEX
  {
    if !Acceptable(p, y.next) then Acting(y, [])
    else
      var d := p.data.value.value;
      Acting(y.(r := y.r.(buffer := Wrapper(WithState(y.r.buffer.bin, INVALID), true), written := y.r.written + |d|),
                next := Next(y.next), calculated := XorOn(y.calculated, d)),
             StoreActs(y.r.buffer.bin, y.r.written, d))
  }

  /** The end of an upload, by command or because it timed out. */
  function StopStep(y: Sys, forced: bool): Step {
    var val := if forced then INVALID else VALID;
    Acting(y.(r := y.r.(buffer := Wrapper(WithState(y.r.buffer.bin, val), false))), Setting(Buffer, y.r.buffer.bin, val))
  }

  function EndStep(y: Sys): Step {
    StopStep(y, y.received != y.calculated)
  }

  /** One round of background work. */
  function TickStep(y: Sys, internal: seq<byte>, fault: Fault): Step
    requires Bounded(y.r, internal) && EraseRoom(y.r)
  {
    Acting(y.(r := Tick(y.r, fault).0), YieldActs(y.r, internal, fault))
  }

  function BackupStep(y: Sys, checkBuildId: bool): Step {
    Acting(y.(r := BackupStarted(y.r, checkBuildId).0), StartingBackup(y.r, checkBuildId))
  }

  function CancelStep(y: Sys): Step {
    Acting(y.(r := y.r.(backup := Wrapper(WithState(y.r.backup.bin, INVALID), false))), Setting(Backup, y.r.backup.bin, INVALID))
  }

  function UpdateReply(y: Sys, component: Option<Option<Target>>, autobackup: u32): Reply {
    if component.None? then MissingLabel
    else if component.value.None? then UnknownComponent
    else if y.received == 0 || y.received != y.calculated then CrcError
    else if Size(y.r.buffer.bin) == 0 then BinMissing
    else if State(y.r.buffer.bin) != VALID then BinInvalid
    else if component.value.value.ToBackup? && autobackup != 0 then AutobackupEnabled
    else Done
  }

  /** Does this command copy the buffer over the backup? */
  predicate Overwrites(y: Sys, component: Option<Option<Target>>, autobackup: u32) {
    UpdateReply(y, component, autobackup).Done? && component.value.value.ToBackup?
  }

  /** `update/start`: the flag goes up, or the buffer is copied over the backup. */
  function UpdateStep(y: Sys, component: Option<Option<Target>>, autobackup: u32): Step
    requires Overwrites(y, component, autobackup) ==> UpdateRoom(Size(y.r.buffer.bin))
  {
    if !UpdateReply(y, component, autobackup).Done? then Acting(y, [])
    else if component.value.value.ToFirmware? then Acting(y.(config := Flagged(y.config, 1)), FlagActs(y.config, 1))
    else
      Acting(y.(r := y.r.(backup := y.r.backup.(bin := WithState(y.r.buffer.bin, VALID)))), UpdateActs(y.r, y.v))
  }

  /** Has no erasure been left unfinished? */
  predicate Erased(r: Ram) {
    State(r.buffer.bin) != ERASING && r.eraseIndex >= r.eraseCounter
  }

  class Commands {
    const bm: BinManager
    const conf: Configurator
    var partIndexExpected: nat
    var binCrcCalculated: nat
    var binCrcReceived: nat
    ghost var accepted: seq<byte> // the data accepted since the last upload/start
    ghost var assembling: bool // has there been one since power-up?

    ghost predicate Valid()
      reads this, bm, conf, bm.extmem.extflash
    {
      && bm.Valid() && conf.extmem == bm.extmem && conf.Synced()
      && (assembling ==> Assembly(bm.Memory(), bm.Disk(), binCrcCalculated, accepted))
      && (assembling || binCrcReceived == 0 ||
          (binCrcCalculated == 0 && bm.eraseIndex < bm.eraseCounter && State(bm.buffer.bin) != ERASING))
    }

    /** Enough for every command to do exactly its step. */
    ghost predicate Ready()
      reads this, bm, conf, bm.extmem.extflash
    {
      bm.Ready() && Bounded(bm.Memory(), bm.internal) && conf.extmem == bm.extmem
    }

    function Now(): Sys
      reads this, bm, conf, bm.extmem.extflash
    {
      Sys(bm.Memory(), bm.Disk(), conf.config, partIndexExpected, binCrcCalculated, binCrcReceived)
    }

    /** Was that the step taken, from the chip `s` on? */
    ghost predicate Stepped(s: Chip, step: Step)
      reads this, bm, conf, bm.extmem.extflash
    {
      Now() == step.to && Planned(s, step.acts, bm.Chip())
    }

    constructor Init(b: BinManager, c: Configurator)
      requires b.Ready() && Bounded(b.Memory(), b.internal) && c.extmem == b.extmem
      ensures Ready() && bm == b && conf == c && !assembling
      ensures b.Valid() && c.Synced() ==> Valid()
      ensures partIndexExpected == binCrcCalculated == binCrcReceived == 0
    {
      bm, conf := b, c;
      partIndexExpected, binCrcCalculated, binCrcReceived := 0, 0, 0;
      accepted, assembling := [], false;
    }

    /** How many bytes of the buffer's description differ from `b`? */
    method BufferCheck(b: Bin) returns (x: nat)
      ensures x == 0 <==> b == bm.buffer.bin
    {
      x := 0;
      for i := 0 to STRUCT
        invariant x == 0 <==> forall k | 0 <= k < i :: b[k] == bm.buffer.bin[k]
      {
        if b[i] != bm.buffer.bin[i] {
          x := x + 1;
        }
      }
    }

    /** `upload/start`. The comparison with the present description includes the
        state, which is invalid in the request, so a duplicate of a valid binary is
        never recognised. `memory` is what the stack happened to hold. */
    method UploadStart(q: StartRequest, memory: Bin) returns (reply: Reply)
      requires Ready()
      modifies this, conf, bm, bm.extmem.extflash, bm.extmem.scratch
      ensures Ready() && bm.origin == old(bm.origin)
      ensures reply == StartReply(old(Now()), q)
      ensures var complete := q.size.Some? && q.crc.Some? && q.buildId.Some? && q.version.Some?;
              && (reply == MissingLabel <==> !complete) && (reply == EraseInProgress <==> complete && old(bm.buffer.bin)[156] == ERASING)
              && (reply == Done <==> complete && old(bm.buffer.bin)[156] != ERASING)
      ensures reply.Done? ==>
                && assembling && accepted == [] && partIndexExpected == 0 && binCrcReceived == q.crc.value && conf.Flashflag() == 0
                && bm.Memory() == old(bm.Memory()).(buffer := Wrapper(WithState(Described(q, memory), ERASING), true), eraseIndex := 0,
                                                    eraseCounter := q.size.value / SUBSECTOR + 1, written := 0)
      ensures !reply.Done? ==> bm.Memory() == old(bm.Memory()) && bm.Chip() == old(bm.Chip()) && unchanged(conf) && unchanged(this)
      ensures reply.Done? ==> Describes(bm.buffer.bin, q, memory) && bm.buffer.bin[156] == ERASING
      ensures conf.config[4..] == old(conf.config)[4..]
      ensures Stepped(old(bm.Chip()), StartStep(old(Now()), q, memory))
      ensures old(Valid()) ==> Weathered(old(bm.Chip()), bm.Chip(), bm.origin, bm.origin)
      ensures old(Valid()) && (reply.Done? ==> q.size.value < PARTITION) ==> Valid()
    {
      hide Weathered, Good, Saving, Settled, Did, Described, WithState, Synced,
        BackupProgress, EraseProgress, Atomic, Stored, Le32, Assembly, ConfigOf, SavingConfig, Planned, PlanOps, Played, Inv, Flagged, FlagActs,
        Flag, Blocks, Describes;
      ghost var s := bm.Chip();
      ghost var y, valid := Now(), Valid();
      StandStill(s);
      PlannedNothing(s);
      StartSteps(y, q, memory, s);
      if valid {
        InvIsGood(bm.Memory(), bm.Disk(), bm.origin, bm.internal);
        GoodThroughout(s, s, bm.origin);
      }
      if q.size.None? || q.crc.None? || q.buildId.None? || q.version.None? {
        return MissingLabel;
      }
      if State(bm.buffer.bin) == ERASING {
        return EraseInProgress;
      }
      var b := Described(q, memory);
      DescribedSays(q, memory);
      binCrcReceived := q.crc.value;
      var diff := BufferCheck(b);
      if diff == 0 && State(bm.buffer.bin) == VALID {
        assert false;
      }
      DisableFlag(valid);
      ghost var t := bm.Chip();
      bm.BufferPrepare(b);
      WithStateMeta(b, ERASING);
      DescribesMeta(b, bm.buffer.bin, q, memory);
      PlannedBoth(s, FlagActs(y.config, 0), t, [Writing(Buffer, WithState(b, ERASING))], bm.Chip());
      PlannedDisk(s, FlagActs(y.config, 0) + [Writing(Buffer, WithState(b, ERASING))], bm.Chip());
      partIndexExpected := 0;
      binCrcCalculated := 0;
      accepted, assembling := [], true;
      if valid {
        SavingStores(t.mem[..INDEX], Buffer, WithState(b, ERASING));
        ConfigKept(t.mem[..INDEX], Buffer, WithState(b, ERASING));
        WeatheredBoth(s, t, bm.Chip(), bm.origin, bm.origin);
        if q.size.value < PARTITION {
          Starting(bm.Memory(), bm.Disk());
        }
      }
      return Done;
    }

    /** `upload/data`. A part that is sent before the erasure has finished, or runs
        over the declared size, is stored like any other, up to the end of the
        chip. */
    method UploadData(p: Part) returns (reply: Reply)
      requires Receptive() && (Acceptable(p, partIndexExpected) ==> BUFFER + bm.written + |p.data.value.value| <= SIZE)
      modifies this, bm, bm.extmem.extflash, bm.extmem.scratch
      ensures Receptive() && bm.origin == old(bm.origin)
      ensures binCrcReceived == old(binCrcReceived) && assembling == old(assembling)
      ensures reply == DataReply(p, old(partIndexExpected)) && (reply.Done? <==> Acceptable(p, old(partIndexExpected)))
      ensures var complete := p.part.Some? && p.size.Some? && p.data.Some? && p.crc.Some?;
              var decoded := complete && p.data.value.Some? && |p.data.value.value| <= 1024;
              var undamaged := decoded && p.crc.value == XorAll(p.data.value.value);
              && (reply == MissingLabel <==> !complete) && (reply == GeneralError <==> complete && !decoded)
              && (reply == CrcError <==> decoded && !undamaged)
              && (reply == UnexpectedPart(old(partIndexExpected)) <==> undamaged && p.part.value != old(partIndexExpected))
              && (reply == Done <==> undamaged && p.part.value == old(partIndexExpected))
      ensures reply.Done? ==>
                && partIndexExpected == (old(partIndexExpected) + 1) % 0x1_0000_0000 && accepted == old(accepted) + p.data.value.value
                && bm.Memory() == old(bm.Memory()).(buffer := Wrapper(WithState(old(bm.buffer.bin), INVALID), true),
                                                    written := old(bm.written) + |p.data.value.value|)
                && Did(old(bm.Chip()), PartOps(old(bm.Chip()).mem, old(bm.buffer.bin), old(bm.written), p.data.value.value), bm.Chip())
      ensures !reply.Done? ==> bm.Memory() == old(bm.Memory()) && bm.Chip() == old(bm.Chip())
                               && partIndexExpected == old(partIndexExpected) && accepted == old(accepted)
      ensures old(Ready()) && (reply.Done? ==> BUFFER + old(bm.written) + |p.data.value.value| <= INDEX) ==>
                Ready() && Stepped(old(bm.Chip()), DataStep(old(Now()), p))
      ensures old(Valid()) && (reply.Done? ==> old(Expected(|p.data.value.value|))) ==>
                Valid() && Weathered(old(bm.Chip()), bm.Chip(), bm.origin, bm.origin)
    {
      hide Weathered, Good, Saving, Settled, Did, WithState, Synced, BackupProgress, ProgramOps,
        EraseProgress, Atomic, Stored, Le32, Assembly, ConfigOf, Masked, XorOn, Planned, PlanOps, Played, Inv, PartOps;
      ghost var s := bm.Chip();
      ghost var y, valid := Now(), Valid();
      ReplyAccepts(p, partIndexExpected);
      NoPart(s, y, p);
      if valid {
        InvIsGood(bm.Memory(), bm.Disk(), bm.origin, bm.internal);
        StandStill(s);
        GoodThroughout(s, s, bm.origin);
      }
      if p.part.None? || p.size.None? || p.data.None? || p.crc.None? {
        return MissingLabel;
      }
      if p.data.value.None? || |p.data.value.value| > DECODED {
        return GeneralError;
      }
      var d := p.data.value.value;
      var calculated := Checksum(0, d);
      if p.crc.value != calculated {
        return CrcError;
      }
      if p.part.value != partIndexExpected {
        return UnexpectedPart(partIndexExpected);
      }
      Store(d, valid && Expected(|d|));
      partIndexExpected := Next(partIndexExpected);
      return Done;
    }

    /** Marks the buffer invalid and adds a part to it. */
    method Store(d: seq<byte>, ghost kept: bool)
      requires Receptive() && BUFFER + bm.written + |d| <= SIZE && (kept ==> Valid() && Expected(|d|))
      modifies this`binCrcCalculated, this`accepted, bm, bm.extmem.extflash, bm.extmem.scratch
      ensures Receptive() && accepted == old(accepted) + d && bm.origin == old(bm.origin)
      ensures bm.Memory() == old(bm.Memory()).(buffer := Wrapper(WithState(old(bm.buffer.bin), INVALID), true),
                                               written := old(bm.written) + |d|)
      ensures binCrcCalculated == XorOn(old(binCrcCalculated), d)
      ensures Did(old(bm.Chip()), PartOps(old(bm.Chip()).mem, old(bm.buffer.bin), old(bm.written), d), bm.Chip())
      ensures old(Ready()) && BUFFER + old(bm.written) + |d| <= INDEX ==>
                && Ready() && Planned(old(bm.Chip()), StoreActs(old(bm.buffer.bin), old(bm.written), d), bm.Chip())
                && bm.Disk() == Played(old(bm.Disk()), StoreActs(old(bm.buffer.bin), old(bm.written), d))
      ensures kept ==> Valid() && Weathered(old(bm.Chip()), bm.Chip(), bm.origin, bm.origin)
    {
      hide Weathered, Good, Saving, Settled, Did, Synced, BackupProgress, ProgramOps, EraseProgress, Atomic, Stored, Le32, Assembly,
        ConfigOf, Masked, XorOn, Planned, PlanOps, Played, Inv, PartOps;
      ghost var s, r, ready := bm.Chip(), bm.Memory(), Ready();
      WithStateMeta(r.buffer.bin, INVALID);
      MarkInvalid(kept);
      ghost var t := bm.Chip();
      Append(d, kept);
      PartDone(s, r.buffer.bin, t, r.written, d, bm.Chip());
      if ready && BUFFER + r.written + |d| <= INDEX {
        PlannedBoth(s, Setting(Buffer, r.buffer.bin, INVALID), t, [Burn(BUFFER + r.written, d)], bm.Chip());
        PlannedDisk(s, StoreActs(r.buffer.bin, r.written, d), bm.Chip());
      }
      if kept {
        WeatheredBoth(s, t, bm.Chip(), bm.origin, bm.origin);
      }
    }

    /** Enough for a part to be stored. Once the buffer is marked invalid nothing is
        saved, so it need not matter what the journal holds. */
    ghost predicate Receptive()
      reads this, bm, conf, bm.extmem.extflash
    {
      bm.extmem.Valid() && conf.extmem == bm.extmem && (Ready() || State(bm.buffer.bin) == INVALID)
    }

    /** Has the erasure finished, and is there room for `n` more bytes? */
    ghost predicate Expected(n: nat)
      reads this, bm
    {
      Erased(bm.Memory()) && bm.written + n <= if assembling then Size(bm.buffer.bin) else PARTITION
    }

    /** Adds a part to the checksum and to the buffer. */
    method Append(d: seq<byte>, ghost kept: bool)
      requires bm.extmem.Valid() && BUFFER + bm.written + |d| <= SIZE && (kept ==> Valid() && Expected(|d|))
      modifies this`binCrcCalculated, this`accepted, bm, bm.extmem.extflash, bm.extmem.scratch
      ensures accepted == old(accepted) + d && bm.Memory() == old(bm.Memory()).(written := old(bm.written) + |d|)
      ensures binCrcCalculated == XorOn(old(binCrcCalculated), d) && bm.origin == old(bm.origin)
      ensures Did(old(bm.Chip()), ProgramOps(BUFFER + old(bm.written), d), bm.Chip())
      ensures old(Ready()) && BUFFER + old(bm.written) + |d| <= INDEX ==>
                Ready() && Planned(old(bm.Chip()), [Burn(BUFFER + old(bm.written), d)], bm.Chip())
      ensures kept ==> Valid() && Weathered(old(bm.Chip()), bm.Chip(), bm.origin, bm.origin)
    {
      hide Weathered, Good, Saving, Settled, Did, WithState, Synced, BackupProgress, EraseProgress, ProgramOps,
        Stored, Le32, Assembly, ConfigOf, Masked, XorOn, Planned, PlanOps, Played, Inv;
      ghost var v, m, r, before := bm.Disk(), bm.extmem.extflash.mem, bm.Memory(), binCrcCalculated;
      if kept && assembling {
        AssemblySum(r, v, before, accepted);
      }
      binCrcCalculated := Checksum(binCrcCalculated, d);
      var data := new byte[|d|](i requires 0 <= i < |d| => d[i]);
      assert data[..|d|] == d;
      bm.WriteBinPart(data, |d|);
      if kept {
        PartConfig(m, bm.extmem.extflash.mem, r.written, d);
        if assembling {
          PartAssembled(r, m, binCrcCalculated, accepted, d);
        }
      }
      accepted := accepted + d;
    }

    /** Folds a part into a checksum, byte by byte. */
    method Checksum(from: nat, d: seq<byte>) returns (crc: nat)
      ensures crc == XorOn(from, d)
    {
      hide Xor;
      crc := from;
      for i := 0 to |d|
        invariant crc == XorOn(from, d[..i])
      {
        assert d[..i + 1][..i] == d[..i];
        crc := Xor(crc, d[i]);
      }
      assert d[..|d|] == d;
    }

    /** While parts come in, the buffer is marked invalid and busy. */
    method MarkInvalid(ghost kept: bool)
      requires Receptive() && (kept ==> Valid() && State(bm.buffer.bin) != ERASING)
      modifies bm, bm.extmem.extflash, bm.extmem.scratch
      ensures (old(Ready()) ==> Ready()) && bm.origin == old(bm.origin)
      ensures bm.Memory() == old(bm.Memory()).(buffer := Wrapper(WithState(old(bm.buffer.bin), INVALID), true))
      ensures Planned(old(bm.Chip()), Setting(Buffer, old(bm.buffer.bin), INVALID), bm.Chip())
      ensures kept ==> Valid() && Weathered(old(bm.Chip()), bm.Chip(), bm.origin, bm.origin)
    {
      hide Weathered, Good, Saving, SafeToSave, Settled, Did, Atomic, Stored, Le32, Assembly, ConfigOf, Planned, PlanOps, Played;
      ghost var v, r := bm.Disk(), bm.Memory();
      bm.SetState(Buffer, INVALID);
      bm.buffer := bm.buffer.(busy := true);
      if kept {
        WithStateMeta(r.buffer.bin, INVALID);
        NotErasing(v, bm.buffer.bin, bm.origin);
        InvSaved(v, bm.origin, bm.internal, Buffer, bm.Memory());
        GoodThroughout(old(bm.Chip()), bm.Chip(), bm.origin);
        ConfigKept(v, Buffer, bm.buffer.bin);
        SavingStores(v, Buffer, bm.buffer.bin);
        if assembling {
          AssemblyKept(r, v, binCrcCalculated, accepted, bm.Memory(), bm.Disk());
        }
      }
    }

    /** `upload/end`: the binary is valid only if its checksum is the declared one. */
    method UploadEnd() returns (reply: Reply)
      requires Ready()
      modifies this, bm, bm.extmem.extflash, bm.extmem.scratch
      ensures Ready() && bm.origin == old(bm.origin)
      ensures reply == if old(binCrcReceived) == old(binCrcCalculated) then Done else CrcError
      ensures bm.Memory() == old(bm.Memory()).(buffer := Wrapper(WithState(old(bm.buffer.bin), if reply.Done? then VALID else INVALID), false))
      ensures accepted == old(accepted) && partIndexExpected == old(partIndexExpected) && binCrcReceived == old(binCrcReceived)
      ensures assembling == (old(assembling) && old(State(bm.buffer.bin) != ERASING || bm.eraseIndex >= bm.eraseCounter))
      ensures Stepped(old(bm.Chip()), EndStep(old(Now())))
      ensures old(Valid()) ==>
                Valid() && Weathered(old(bm.Chip()), bm.Chip(), bm.origin, bm.origin) && bm.Disk()[..CONFIG] == old(bm.Disk())[..CONFIG]
    {
      hide Weathered, StopStep;
      if binCrcReceived == binCrcCalculated {
        Stop(false);
        reply := Done;
      } else {
        Stop(true);
        reply := CrcError;
      }
    }

    /** `upload_stop`, called at the end of an upload, or when it times out. */
    method Stop(forced: bool)
      requires Ready()
      modifies this, bm, bm.extmem.extflash, bm.extmem.scratch
      ensures Ready() && bm.origin == old(bm.origin)
      ensures bm.Memory() == old(bm.Memory()).(buffer := Wrapper(WithState(old(bm.buffer.bin), if forced then INVALID else VALID), false))
      ensures accepted == old(accepted) && partIndexExpected == old(partIndexExpected) && binCrcReceived == old(binCrcReceived)
      ensures assembling == (old(assembling) && old(State(bm.buffer.bin) != ERASING || bm.eraseIndex >= bm.eraseCounter))
      ensures Stepped(old(bm.Chip()), StopStep(old(Now()), forced))
      ensures old(Valid()) ==>
                Valid() && Weathered(old(bm.Chip()), bm.Chip(), bm.origin, bm.origin) && bm.Disk()[..CONFIG] == old(bm.Disk())[..CONFIG]
    {
      hide Weathered, Good, Saving, Settled, Did, WithState, Stored, Le32, Assembly, ConfigOf, Planned, PlanOps, Played;
      ghost var v, r, valid := bm.Disk(), bm.Memory(), Valid();
      WithStateMeta(bm.buffer.bin, if forced then INVALID else VALID);
      bm.UploadStop(forced);
      PlannedDisk(old(bm.Chip()), Setting(Buffer, r.buffer.bin, if forced then INVALID else VALID), bm.Chip());
      if valid {
        ConfigKept(v, Buffer, bm.buffer.bin);
        SavingStores(v, Buffer, bm.buffer.bin);
        if assembling && State(r.buffer.bin) == ERASING {
          NothingYet(r, v, binCrcCalculated, accepted);
        }
      }
      assembling := assembling && (State(r.buffer.bin) != ERASING || r.eraseIndex >= r.eraseCounter);
      if valid && assembling {
        AssemblyStopped(r, v, binCrcCalculated, accepted, bm.Memory(), bm.Disk());
      }
    }

    method Yield(fault: Fault) returns (rc: int)
      requires Ready() && EraseRoom(bm.Memory())
      modifies bm, bm.extmem.extflash, bm.extmem.scratch
      ensures Ready() && (bm.Memory(), bm.Disk(), rc) == Yielded(old(bm.Memory()), old(bm.Disk()), bm.internal, fault)
      ensures bm.origin == if old(bm.backup.busy && bm.backupIndex == bm.backupCounter)
                           then Origin(Meta(old(bm.firmware.bin)), bm.internal[..Size(old(bm.firmware.bin))]) else old(bm.origin)
      ensures Stepped(old(bm.Chip()), TickStep(old(Now()), bm.internal, fault))
      ensures old(Valid()) ==> Valid() && Weathered(old(bm.Chip()), bm.Chip(), bm.origin, bm.origin)
    {
      hide Weathered, Good, Saving, Settled, Did, Stored, Le32, Assembly, ConfigOf, Yielded, Planned, PlanOps, Played, YieldActs, Tick;
      ghost var v, r, valid := bm.Disk(), bm.Memory(), Valid();
      if valid {
        YieldKeeps(r, v, bm.internal, fault);
        YieldWorks(r, v, bm.internal, fault);
        YieldDescribes(r, v, bm.internal, fault);
        if assembling {
          YieldAssembles(r, v, bm.internal, fault, binCrcCalculated, accepted);
        }
      }
      rc := bm.Yield(fault);
      YieldedIs(r, v, bm.internal, fault);
      TickBounded(r, bm.internal, fault);
      PlannedDisk(old(bm.Chip()), YieldActs(r, bm.internal, fault), bm.Chip());
    }

    method BackupStart(checkBuildId: bool) returns (rc: int)
      requires Ready()
      modifies bm, bm.extmem.extflash, bm.extmem.scratch
      ensures Ready() && bm.origin == old(bm.origin)
      ensures (bm.Memory(), rc) == BackupStarted(old(bm.Memory()), checkBuildId)
      ensures Stepped(old(bm.Chip()), BackupStep(old(Now()), checkBuildId))
      ensures old(Valid()) ==> Valid() && Weathered(old(bm.Chip()), bm.Chip(), bm.origin, bm.origin)
    {
      hide Weathered, Good, Saving, Settled, Did, Stored, Le32, Assembly, ConfigOf, State, Planned, PlanOps, Played;
      ghost var v, r, valid := bm.Disk(), bm.Memory(), Valid();
      rc := bm.BackupStart(checkBuildId);
      StartedBounded(r, bm.internal, checkBuildId);
      PlannedDisk(old(bm.Chip()), StartingBackup(r, checkBuildId), bm.Chip());
      if valid {
        ghost var u := Saving(v, Firmware, bm.firmware.bin);
        ConfigKept(v, Firmware, bm.firmware.bin);
        ConfigKept(u, Backup, bm.backup.bin);
        SavingStores(v, Firmware, bm.firmware.bin);
        SavingStores(u, Backup, bm.backup.bin);
        if assembling {
          AssemblyKept(r, v, binCrcCalculated, accepted, bm.Memory(), bm.Disk());
        }
      }
    }

    method BackupStop()
      requires Ready()
      modifies bm, bm.extmem.extflash, bm.extmem.scratch
      ensures Ready() && bm.origin == old(bm.origin)
      ensures bm.Memory() == old(bm.Memory()).(backup := Wrapper(WithState(old(bm.backup.bin), INVALID), false))
      ensures Stepped(old(bm.Chip()), CancelStep(old(Now())))
      ensures old(Valid()) ==> Valid() && Weathered(old(bm.Chip()), bm.Chip(), bm.origin, bm.origin)
    {
      hide Weathered, Good, Saving, Settled, Did, Stored, Le32, Assembly, ConfigOf, Planned, PlanOps, Played;
      ghost var v, r, valid := bm.Disk(), bm.Memory(), Valid();
      bm.BackupStop();
      PlannedDisk(old(bm.Chip()), Setting(Backup, r.backup.bin, INVALID), bm.Chip());
      if valid {
        ConfigKept(v, Backup, bm.backup.bin);
        SavingStores(v, Backup, bm.backup.bin);
        if assembling {
          AssemblyKept(r, v, binCrcCalculated, accepted, bm.Memory(), bm.Disk());
        }
      }
    }

    /** `update/start`, for the firmware, which the bootloader will flash, and for
        the backup. None stands for a component nobody knows. What is put to use is
        the upload that was assembled. */
    method UpdateStart(component: Option<Option<Target>>, autobackup: u32) returns (reply: Reply)
      requires Ready() && (Overwrites(Now(), component, autobackup) ==> UpdateRoom(Size(bm.buffer.bin)))
      modifies conf, bm, bm.extmem.extflash, bm.extmem.scratch
      ensures Ready()
      ensures reply == UpdateReply(old(Now()), component, autobackup)
      ensures var known := component.Some? && component.value.Some?;
              var checked := known && old(binCrcReceived) == old(binCrcCalculated) != 0;
              var sized, state := checked && Le32(old(bm.buffer.bin)[0..4]) != 0, old(bm.buffer.bin)[156];
              && (reply == MissingLabel <==> component.None?) && (reply == UnknownComponent <==> component == Some(None))
              && (reply == CrcError <==> known && !checked) && (reply == BinMissing <==> checked && !sized)
              && (reply == BinInvalid <==> sized && state != VALID)
              && (reply == AutobackupEnabled <==> sized && state == VALID && component == Some(Some(ToBackup)) && autobackup != 0)
              && (reply == Done <==> sized && state == VALID && (component == Some(Some(ToBackup)) ==> autobackup == 0))
      ensures !reply.Done? ==> bm.Memory() == old(bm.Memory()) && bm.Chip() == old(bm.Chip()) && unchanged(conf)
      ensures !reply.Done? || component.value.value.ToFirmware? ==> bm.origin == old(bm.origin)
      ensures reply.Done? && component.value.value.ToFirmware? ==>
                conf.Flashflag() == 1 && conf.config[4..] == old(conf.config)[4..] && bm.Memory() == old(bm.Memory())
      ensures reply.Done? && component.value.value.ToBackup? ==>
                unchanged(conf) && bm.Memory() == old(bm.Memory()).(backup := old(bm.backup).(bin := WithState(old(bm.buffer.bin), VALID)))
      ensures Stepped(old(bm.Chip()), UpdateStep(old(Now()), component, autobackup))
      ensures old(Valid()) ==> Weathered(old(bm.Chip()), bm.Chip(), old(bm.origin), bm.origin)
      ensures old(Valid()) && (Overwrites(old(Now()), component, autobackup) ==> !old(bm.backup.busy)) ==> Valid()
      ensures old(Valid()) && reply.Done? ==>
                && assembling && XorAll(accepted) == binCrcReceived && |accepted| <= Size(old(bm.buffer.bin)) < PARTITION
                && old(bm.Disk())[BUFFER..BUFFER + Size(old(bm.buffer.bin))] == accepted + Blank(Size(old(bm.buffer.bin)) - |accepted|)
                && (component.value.value.ToBackup? ==>
                      bm.origin == Origin(Meta(old(bm.buffer.bin)), old(bm.Disk())[BUFFER..BUFFER + Size(old(bm.buffer.bin))]))
    {
      hide Weathered, Good, Saving, Settled, Did, WithState, Stored, Le32, Assembly, ConfigOf, Atomic, SavingConfig, Planned, PlanOps, Played;
      ghost var s, v, r := bm.Chip(), bm.Disk(), bm.Memory();
      ghost var y, valid := Now(), Valid();
      StandStill(s);
      PlannedNothing(s);
      UpdateSteps(y, component, autobackup);
      if valid {
        GoodThroughout(s, s, bm.origin);
      }
      if component.None? {
        return MissingLabel;
      }
      if component.value.None? {
        return UnknownComponent;
      }
      if binCrcReceived == 0 || binCrcReceived != binCrcCalculated {
        return CrcError;
      }
      if Size(bm.buffer.bin) == 0 {
        return BinMissing;
      }
      if State(bm.buffer.bin) != VALID {
        return BinInvalid;
      }
      if valid {
        assert assembling;
        WholeAssembly(r, v, binCrcCalculated, accepted);
      }
      match component.value.value
      case ToFirmware =>
        conf.SetFlashflag(1);
        PlannedDisk(s, FlagActs(y.config, 1), bm.Chip());
        if valid {
          assert Stored(v, Buffer) == r.Get(Buffer).bin;
          FlagGood(v, bm.origin, conf.config);
          SavingConfigKeeps(v, conf.config);
          SameBelowConfig(v, bm.Disk(), bm.Memory(), bm.internal);
          GoodThroughout(s, bm.Chip(), bm.origin);
          AssemblyKept(r, v, binCrcCalculated, accepted, bm.Memory(), bm.Disk());
        }
        return Done;
      case ToBackup =>
        if autobackup != 0 {
          return AutobackupEnabled;
        }
        bm.UpdateBackup();
        PlannedDisk(s, UpdateActs(r, v), bm.Chip());
        if valid {
          WithStateMeta(bm.buffer.bin, VALID);
          ConfigKept(v, Backup, bm.backup.bin);
          HighConfig(bm.Disk(), Saving(v, Backup, bm.backup.bin));
          LowAssembly(r, v, binCrcCalculated, accepted, bm.Memory(), bm.Disk());
        }
        return Done;
    }

    /** From an accepted start on, no update may be scheduled. */
    method DisableFlag(ghost kept: bool)
      requires bm.Ready() && conf.extmem == bm.extmem && (kept ==> bm.Valid() && conf.Synced())
      modifies conf, bm.extmem.extflash, bm.extmem.scratch
      ensures bm.Ready() && conf.Flashflag() == 0 && conf.config[4..] == old(conf.config)[4..]
      ensures conf.config == Flagged(old(conf.config), 0) && Planned(old(bm.Chip()), FlagActs(old(conf.config), 0), bm.Chip())
      ensures kept ==>
                && bm.Valid() && conf.Synced() && Flag(bm.Disk()) == 0
                && Weathered(old(bm.Chip()), bm.Chip(), bm.origin, bm.origin)
                && forall c :: Stored(bm.Disk(), c) == Stored(old(bm.Disk()), c)
    {
      hide Weathered, Good, Settled, Did, Atomic, Le32, SavingConfig, Stored, Planned, PlanOps, Played;
      ghost var s, v := bm.Chip(), bm.Disk();
      StandStill(s);
      PlannedNothing(s);
      FlagIsConfig(v);
      if kept {
        GoodThroughout(s, s, bm.origin);
      }
      if conf.Flashflag() != 0 {
        conf.SetFlashflag(0);
        if kept {
          FlagGood(v, bm.origin, conf.config);
          SavingConfigKeeps(v, conf.config);
          SameBelowConfig(v, bm.Disk(), bm.Memory(), bm.internal);
          GoodThroughout(s, bm.Chip(), bm.origin);
        }
      }
    }
  }

  /** A backup under way stays within the firmware. */
  lemma TickBounded(r: Ram, internal: seq<byte>, fault: Fault)
    requires Bounded(r, internal)
    ensures Bounded(Tick(r, fault).0, internal)
  {
    hide WithState, Le32;
  }

  lemma StartedBounded(r: Ram, internal: seq<byte>, checkBuildId: bool)
    requires Bounded(r, internal)
    ensures Bounded(BackupStarted(r, checkBuildId).0, internal)
  {
    hide FixedSize, BuildId, WithState;
    FixedSizeIs(r.firmware.bin);
  }

  /** In RAM as on the flash, no update is scheduled from a buffer that is being,
      or has been, erased. */
  lemma FlagInRam(cmds: Commands)
    requires cmds.Valid()
    ensures var s := State(cmds.bm.buffer.bin); s == ERASING || s == ERASED ==> cmds.conf.Flashflag() == 0 && Flag(cmds.bm.Disk()) == 0
  {
    hide Le32, Stored, BackupProgress, EraseProgress, Assembly;
    assert Stored(cmds.bm.Disk(), Buffer) == cmds.bm.Memory().Get(Buffer).bin;
    FlagIsConfig(cmds.bm.Disk());
  }

  lemma FlagIsConfig(v: Disk)
    ensures Flag(v) == Le32(ConfigOf(v)[0..4])
  {
    hide Le32;
    assert ConfigOf(v)[0..4] == v[CONFIG..CONFIG + 4];
  }

  lemma ConfigKept(v: Disk, c: Component, b: Bin)
    ensures ConfigOf(Saving(v, c, b)) == ConfigOf(v)
  {
    hide Splice;
    SpliceSlice(v, Place(c), b, CONFIG, CONFIG + CONFIG_STRUCT);
  }

  lemma Starting(r: Ram, v: Disk)
    requires State(r.buffer.bin) == ERASING && r.written == 0 && Size(r.buffer.bin) < PARTITION
    requires r.eraseCounter == Size(r.buffer.bin) / SUBSECTOR + 1
    ensures Assembly(r, v, 0, [])
  {
  }

  lemma PartConfig(f: Image, g: Image, at: nat, d: seq<byte>)
    requires at + |d| <= PARTITION && g == Masked(f, BUFFER + at, d)
    ensures ConfigOf(g[..INDEX]) == ConfigOf(f[..INDEX])
  {
    hide And;
    assert forall i | CONFIG <= i < CONFIG + CONFIG_STRUCT :: g[i] == f[i];
    SliceBelow(g, CONFIG, CONFIG + CONFIG_STRUCT);
    SliceBelow(f, CONFIG, CONFIG + CONFIG_STRUCT);
  }

  lemma AssemblySum(r: Ram, v: Disk, calculated: nat, accepted: seq<byte>)
    requires Assembly(r, v, calculated, accepted)
    ensures calculated == XorAll(accepted) && r.written == |accepted| && Size(r.buffer.bin) < PARTITION
  {
  }

  /** What an upload in progress has put in the buffer, up to the declared size. */
  lemma WholeAssembly(r: Ram, v: Disk, calculated: nat, accepted: seq<byte>)
    requires Assembly(r, v, calculated, accepted) && State(r.buffer.bin) != ERASING
    ensures calculated == XorAll(accepted) && |accepted| <= Size(r.buffer.bin) < PARTITION
    ensures v[BUFFER..BUFFER + Size(r.buffer.bin)] == accepted + Blank(Size(r.buffer.bin) - |accepted|)
  {
    hide Le32;
    SliceJoin(v, 0, |accepted|, Size(r.buffer.bin));
    assert v[0..|accepted|] == v[..|accepted|];
  }

  lemma ActingNothing(y: Sys)
    ensures Acting(y, []) == Step(y, [])
  {
  }

  /** A refused command does nothing. */
  lemma StartSteps(y: Sys, q: StartRequest, memory: Bin, s: Chip)
    ensures !StartReply(y, q).Done? ==> StartStep(y, q, memory) == Step(y, [])
  {
    hide Played, Described;
    ActingNothing(y);
  }

  lemma PartDone(s: Chip, b: Bin, t: Chip, written: nat, d: seq<byte>, u: Chip)
    requires BUFFER + written + |d| <= SIZE
    requires Planned(s, Setting(Buffer, b, INVALID), t) && Did(t, ProgramOps(BUFFER + written, d), u)
    ensures Did(s, PartOps(s.mem, b, written, d), u)
  {
    hide PlanOps, ProgramOps, Setting, Did;
    DidBoth(s, PlanOps(s.mem, Setting(Buffer, b, INVALID)), t, ProgramOps(BUFFER + written, d), u);
  }

  lemma NoPart(s: Chip, y: Sys, p: Part)
    ensures !Acceptable(p, y.next) ==> DataStep(y, p) == Step(y, []) && Planned(s, [], s)
  {
    hide Played, Acceptable, Planned;
    ActingNothing(y);
    PlannedNothing(s);
  }

  lemma UpdateSteps(y: Sys, component: Option<Option<Target>>, autobackup: u32)
    requires Overwrites(y, component, autobackup) ==> UpdateRoom(Size(y.r.buffer.bin))
    ensures !UpdateReply(y, component, autobackup).Done? ==> UpdateStep(y, component, autobackup) == Step(y, [])
  {
    hide Played, UpdateActs;
    ActingNothing(y);
  }

  lemma NothingYet(r: Ram, v: Disk, calculated: nat, accepted: seq<byte>)
    requires Assembly(r, v, calculated, accepted) && State(r.buffer.bin) == ERASING
    ensures calculated == 0 && accepted == []
  {
  }

  /** Background work changes no more of the buffer's description than its state,
      and ends an erasure only by finishing it. */
  lemma YieldDescribes(r: Ram, v: Disk, internal: seq<byte>, fault: Fault)
    requires BackupProgress(r, v, internal) && EraseRoom(r)
    ensures var q := Yielded(r, v, internal, fault).0;
            && Meta(q.buffer.bin) == Meta(r.buffer.bin)
            && (State(r.buffer.bin) != ERASING ==> q.buffer == r.buffer && q.eraseIndex == r.eraseIndex && q.eraseCounter == r.eraseCounter)
            && (State(r.buffer.bin) == ERASING ==>
                  State(q.buffer.bin) == ERASING || (State(q.buffer.bin) == ERASED && q.eraseIndex >= q.eraseCounter))
  {
    hide Saving, Splice, Stored, Le32, Meta, WithState, Yielded, BackupYielded, EraseYielded;
    YieldsBoth(r, v, internal, fault);
    var (q, w, _) := BackupYielded(r, v, internal, fault);
    EraseYields(q, w);
    WithStateMeta(r.buffer.bin, ERASED);
  }

  /** A part lands on blank cells, so it is stored as it is. */
  lemma PartAssembled(r: Ram, f: Image, calculated: nat, accepted: seq<byte>, d: seq<byte>)
    requires State(r.buffer.bin) != ERASING && r.written == |accepted| && |accepted| + |d| <= Size(r.buffer.bin) < PARTITION
    requires Assembly(r, f[..INDEX], XorAll(accepted), accepted)
    requires calculated == XorOn(XorAll(accepted), d)
    ensures Assembly(r.(written := r.written + |d|), Masked(f, BUFFER + |accepted|, d)[..INDEX], calculated, accepted + d)
  {
    hide XorOn, Le32, Masked, BufferHolds;
    XorAppend(0, accepted, d);
    PartStored(f, accepted, Size(r.buffer.bin), d);
  }

  lemma PartStored(f: Image, a: seq<byte>, n: nat, d: seq<byte>)
    requires |a| + |d| <= n < PARTITION && BufferHolds(f[..INDEX], a, n)
    ensures BufferHolds(Masked(f, BUFFER + |a|, d)[..INDEX], a + d, n)
  {
    hide And, Masked, Splice;
    var v, at := f[..INDEX], |a|;
    BlankPiece(v, at, n, at, at + |d|);
    BlankPiece(v, at, n, at + |d|, n);
    SameSlices(f, v, INDEX, at, at + |d|);
    MaskedErased(f, at, d);
    SpliceBelow(f, at, d);
    SplicePrefix(v, at, d);
    SpliceSlice(v, at, d, at + |d|, n);
  }

  lemma BlankPiece(v: seq<byte>, lo: nat, hi: nat, x: nat, y: nat)
    requires lo <= x <= y <= hi <= |v| && v[lo..hi] == Blank(hi - lo)
    ensures v[x..y] == Blank(y - x)
  {
    assert forall i | x <= i < y :: v[i] == v[lo..hi][i - lo] == 0xFF;
  }

  /** The end of an upload keeps what has been assembled, and even if the erasure
      was only just finished there is nothing in its way. */
  lemma AssemblyStopped(r: Ram, v: Disk, calculated: nat, accepted: seq<byte>, q: Ram, w: Disk)
    requires Assembly(r, v, calculated, accepted) && EraseProgress(r, v) && v[..CONFIG] == w[..CONFIG]
    requires State(r.buffer.bin) != ERASING || r.eraseIndex >= r.eraseCounter
    requires q.written == r.written && Size(q.buffer.bin) == Size(r.buffer.bin) && State(q.buffer.bin) != ERASING
    ensures Assembly(q, w, calculated, accepted)
  {
    hide Le32;
    if State(r.buffer.bin) != ERASING {
      var at, n := |accepted|, Size(r.buffer.bin);
      SameSlices(w, v, CONFIG, 0, at);
      SameSlices(w, v, CONFIG, at, n);
      assert w[..at] == w[0..at] && v[..at] == v[0..at];
    } else {
      var n, total := Size(r.buffer.bin), r.eraseCounter * SUBSECTOR;
      assert v[0..total] == v[..total];
      BlankPiece(v, 0, total, 0, n);
      SameSlices(w, v, CONFIG, 0, n);
    }
  }

  /** Nothing the assembly depends on has changed. */
  lemma AssemblyKept(r: Ram, v: Disk, calculated: nat, accepted: seq<byte>, q: Ram, w: Disk)
    requires Assembly(r, v, calculated, accepted) && v[..CONFIG] == w[..CONFIG]
    requires q.written == r.written && Size(q.buffer.bin) == Size(r.buffer.bin) && q.eraseCounter == r.eraseCounter
    requires State(q.buffer.bin) == ERASING <==> State(r.buffer.bin) == ERASING
    ensures Assembly(q, w, calculated, accepted)
  {
    hide Le32;
    if State(r.buffer.bin) != ERASING {
      var at, n := |accepted|, Size(r.buffer.bin);
      SameSlices(w, v, CONFIG, 0, at);
      SameSlices(w, v, CONFIG, at, n);
      assert w[..at] == w[0..at] && v[..at] == v[0..at];
    }
  }

  lemma LowAssembly(r: Ram, v: Disk, calculated: nat, accepted: seq<byte>, q: Ram, w: Disk)
    requires Assembly(r, v, calculated, accepted) && v[..BACKUP] == w[..BACKUP]
    requires q.written == r.written && q.buffer == r.buffer && q.eraseCounter == r.eraseCounter
    ensures Assembly(q, w, calculated, accepted)
  {
    hide Le32;
    if State(r.buffer.bin) != ERASING {
      var at, n := |accepted|, Size(r.buffer.bin);
      SameSlices(w, v, BACKUP, 0, at);
      SameSlices(w, v, BACKUP, at, n);
      assert w[..at] == w[0..at] && v[..at] == v[0..at];
    }
  }

  lemma HighConfig(v: Disk, w: Disk)
    requires v[BACKUP + PARTITION..] == w[BACKUP + PARTITION..]
    ensures ConfigOf(v) == ConfigOf(w)
  {
    var b := BACKUP + PARTITION;
    assert forall i | CONFIG <= i < CONFIG + CONFIG_STRUCT :: v[i] == v[b..][i - b] == w[b..][i - b] == w[i];
  }

  /** Background work leaves the configuration alone, and what is below the
      backup partition unless it is being erased. */
  lemma YieldKeeps(r: Ram, v: Disk, internal: seq<byte>, fault: Fault)
    requires BackupProgress(r, v, internal) && EraseProgress(r, v) && EraseRoom(r)
    ensures var (_, w, _) := Yielded(r, v, internal, fault);
            ConfigOf(w) == ConfigOf(v) && (State(r.buffer.bin) != ERASING ==> w[..BACKUP] == v[..BACKUP])
  {
    hide Saving, Splice, Stored, ConfigOf, Le32, EraseYielded, BackupYielded, Yielded;
    var (r1, v1, rc1) := BackupYielded(r, v, internal, fault);
    YieldsBoth(r, v, internal, fault);
    BackupLow(r, v, internal, fault);
    EraseLow(r1, v1);
  }

  lemma BackupLow(r: Ram, v: Disk, internal: seq<byte>, fault: Fault)
    requires BackupProgress(r, v, internal)
    ensures var (_, w, _) := BackupYielded(r, v, internal, fault); ConfigOf(w) == ConfigOf(v) && w[..BACKUP] == v[..BACKUP]
  {
    hide Saving, Splice, Stored, Le32, BackupYielded;
    BackupYields(r, v, internal, fault);
    if r.backup.busy {
      BlocksFit(Size(r.firmware.bin), r.backupIndex);
      var at := r.backupIndex * SUBSECTOR;
      if r.backupIndex < r.backupCounter {
        var d := internal[at..at + SUBSECTOR];
        SpliceSlice(v, BACKUP + at, d, 0, BACKUP);
        SpliceSlice(v, BACKUP + at, d, CONFIG, CONFIG + CONFIG_STRUCT);
        assert v[0..BACKUP] == v[..BACKUP];
      } else {
        ConfigKept(v, Backup, r.firmware.bin);
        SavingStores(v, Backup, r.firmware.bin);
        SameSlices(Saving(v, Backup, r.firmware.bin), v, CONFIG, 0, BACKUP);
        assert v[0..BACKUP] == v[..BACKUP];
      }
    }
  }

  lemma EraseLow(r: Ram, v: Disk)
    requires EraseRoom(r) && (State(r.buffer.bin) == ERASING ==> r.eraseCounter * SUBSECTOR <= PARTITION)
    ensures var (_, w, _) := EraseYielded(r, v); ConfigOf(w) == ConfigOf(v) && (State(r.buffer.bin) != ERASING ==> w == v)
  {
    hide Saving, Splice, Stored, Le32, EraseYielded;
    EraseYields(r, v);
    if State(r.buffer.bin) == ERASING {
      if r.eraseIndex < r.eraseCounter {
        SpliceSlice(v, r.eraseIndex * SUBSECTOR, Blank(SUBSECTOR), CONFIG, CONFIG + CONFIG_STRUCT);
      } else {
        ConfigKept(v, Buffer, WithState(r.buffer.bin, ERASED));
      }
    }
  }

  /** Background work keeps the assembly; when it finishes the erasure, the whole
      declared size is blank. */
  lemma YieldAssembles(r: Ram, v: Disk, internal: seq<byte>, fault: Fault, calculated: nat, accepted: seq<byte>)
    requires BackupProgress(r, v, internal) && EraseProgress(r, v) && EraseRoom(r) && Assembly(r, v, calculated, accepted)
    ensures var (q, w, _) := Yielded(r, v, internal, fault); Assembly(q, w, calculated, accepted)
  {
    hide Saving, Splice, Stored, ConfigOf, Le32, Yielded, BackupYielded, EraseYielded, XorAll;
    var (r1, v1, rc1) := BackupYielded(r, v, internal, fault);
    YieldsBoth(r, v, internal, fault);
    BackupKeepsWritten(r, v, internal, fault);
    BackupLow(r, v, internal, fault);
    LowAssembly(r, v, calculated, accepted, r1, v1);
    EraseUndisturbed(r, v, v1);
    EraseAssembles(r1, v1, calculated, accepted);
  }

  lemma BackupKeepsWritten(r: Ram, v: Disk, internal: seq<byte>, fault: Fault)
    requires BackupProgress(r, v, internal)
    ensures BackupYielded(r, v, internal, fault).0.written == r.written
  {
    hide BackupActs, Played;
  }

  lemma EraseAssembles(r: Ram, v: Disk, calculated: nat, accepted: seq<byte>)
    requires EraseProgress(r, v) && EraseRoom(r) && Assembly(r, v, calculated, accepted)
    ensures var (q, w, _) := EraseYielded(r, v); Assembly(q, w, calculated, accepted)
  {
    hide Saving, Splice, Stored, Le32, XorAll, EraseYielded;
    EraseYields(r, v);
    if State(r.buffer.bin) == ERASING && r.eraseIndex >= r.eraseCounter {
      var n, total, done := Size(r.buffer.bin), r.eraseCounter * SUBSECTOR, WithState(r.buffer.bin, ERASED);
      var w := Saving(v, Buffer, done);
      WithStateMeta(r.buffer.bin, ERASED);
      SavingStores(v, Buffer, done);
      assert v[0..total] == v[..total];
      BlankPiece(v, 0, total, 0, n);
      SameSlices(w, v, CONFIG, 0, n);
    }
  }
}
