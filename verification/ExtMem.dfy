/** The external-memory layer: reading and writing across page and subsector
    boundaries, and the journalled `secure_write`. */
module ExternalMemory {
  import opened Bytes
  import opened NorFlash
  import opened Streams
  import opened Journal

  datatype Code = Ok | Overlap

  /** What `write_data` with erasing does to the chip. */
  function WriteOps(f: Image, a: nat, d: seq<byte>): seq<Op>
    requires a + |d| <= SIZE
  {
    SubsectorsCover(a, |d|);
    CopyOps(Splice(f, a, d), SubsectorBegin(a), SubsectorBegin(a), SubsectorCount(a, |d|))
  }

  /** `write_data` with erasing is a plain update of the range: erasing whole
      subsectors and skipping blank pages never shows. */
  lemma WriteIsUpdate(f: Image, a: nat, d: seq<byte>)
    requires a + |d| <= SIZE
    ensures Run(f, WriteOps(f, a, d)) == Splice(f, a, d)
  {
    SubsectorsCover(a, |d|);
    var h, begin, n := Splice(f, a, d), SubsectorBegin(a), SubsectorCount(a, |d|);
    hide Run, CopyOps, SubsectorCount;
    CopyDone(f, h, begin, begin, n);
    PatchIsWhole(f, a, d, begin, begin + n * SUBSECTOR);
  }

  lemma PatchIsWhole(f: Image, a: nat, d: seq<byte>, lo: nat, hi: nat)
    requires lo <= a && a + |d| <= hi <= SIZE
    ensures Splice(f, lo, Splice(f, a, d)[lo..hi]) == Splice(f, a, d)
  {
  }

  // ---- where the block loops cut a transfer --------------------------------

  /** Where page-by-page transfer of `[a, end)` stands after `i` rounds. */
  function PageCursor(a: nat, end: nat, i: nat): nat
    requires a <= end
  {
    if i == 0 then a else Min(end, (a / PAGE + i) * PAGE)
  }

  /** Where subsector-by-subsector transfer of `[a, end)` stands after `i` rounds. */
  function SubsectorCursor(a: nat, end: nat, i: nat): nat
    requires a <= end
  {
    if i == 0 then a else Min(end, (a / SUBSECTOR + i) * SUBSECTOR)
  }

  /** The counted rounds transfer exactly the request, in order and without gaps,
      and each stays within one page. */
  lemma PageRounds(a: nat, size: nat, i: nat)
    requires i <= PageCount(a, size)
    ensures var z := PageCursor(a, a + size, i);
            && a <= z <= a + size && (i == 0 ==> z == a)
            && (i == PageCount(a, size) ==> z == a + size)
            && (i < PageCount(a, size) ==>
                  var pageEnd := z / PAGE * PAGE + PAGE;
                  var stop := if a + size <= pageEnd then a + size else pageEnd;
                  z <= stop && stop == PageCursor(a, a + size, i + 1) && InPage(z, stop - z))
  {
    var q, e := a / PAGE, (a + size) / PAGE;
    assert q * PAGE <= a < q * PAGE + PAGE && e * PAGE <= a + size < e * PAGE + PAGE;
    if 0 < i < PageCount(a, size) {
      assert PageCursor(a, a + size, i) == (q + i) * PAGE;
    }
  }

  lemma SubsectorRounds(a: nat, size: nat, i: nat)
    requires i <= SubsectorCount(a, size)
    ensures var z := SubsectorCursor(a, a + size, i);
            && a <= z <= a + size && (i == 0 ==> z == a)
            && (i == SubsectorCount(a, size) ==> z == a + size)
            && (i < SubsectorCount(a, size) ==>
                  && SubsectorBegin(z) == SubsectorBegin(a) + i * SUBSECTOR && z == Max(a, SubsectorBegin(z))
                  && SubsectorCursor(a, a + size, i + 1) == Min(a + size, SubsectorBegin(z) + SUBSECTOR) >= z)
  {
    var q, e := a / SUBSECTOR, (a + size) / SUBSECTOR;
    assert q * SUBSECTOR <= a < q * SUBSECTOR + SUBSECTOR && e * SUBSECTOR <= a + size < e * SUBSECTOR + SUBSECTOR;
    if 0 < i < SubsectorCount(a, size) {
      assert SubsectorCursor(a, a + size, i) == (q + i) * SUBSECTOR;
    }
  }

  function Max(x: nat, y: nat): nat {
    if x <= y then y else x
  }

  class ExtMem {
    const extflash: SpiFlash
    const scratch: array<byte> // _subsector_buffer

    ghost predicate Valid() {
      scratch.Length == SUBSECTOR
    }

    /** Start-up: takes over the chip and finishes what a power cut left in the
        journal. */
    constructor Init(chip: SpiFlash)
      requires Sound(chip.mem)
      modifies chip
      ensures Valid() && extflash == chip && fresh(scratch)
      ensures Did(old(chip.State()), RecoverOps(old(chip.mem)), chip.State())
    {
      extflash := chip;
      scratch := new byte[SUBSECTOR];
      new;
      hide Run, RecoverOps, DecodeRecord;
      var journal := new byte[8];
      ReadData(INDEX, 0, journal, 8);
      assert journal[..] == chip.mem[INDEX..INDEX + 8];
      var rc := HandleJournal(DecodeRecord(journal[..]));
    }

    /** Reads a whole subsector into the scratch buffer, page by page. */
    method LoadSubsector(begin: nat)
      requires Valid() && begin % SUBSECTOR == 0 && begin + SUBSECTOR <= SIZE
      modifies scratch
      ensures scratch[..] == extflash.mem[begin..begin + SUBSECTOR]
    {
      hide Gathered, Splice, InPage;
      ghost var was := scratch[..];
      GatheredNothing(was, extflash.mem, begin);
      for j := 0 to PAGES
        invariant Gathered(was, extflash.mem, begin, begin + j * PAGE, scratch[..])
      {
        ghost var now := scratch[..];
        WholePage(begin, j);
        extflash.Read(begin + j * PAGE, scratch, j * PAGE, PAGE);
        GatheredNext(was, extflash.mem, begin, begin + j * PAGE, now, begin + j * PAGE + PAGE);
      }
      GatheredAll(was, extflash.mem, begin, begin + SUBSECTOR, scratch[..]);
      SpliceAll(was, extflash.mem[begin..begin + SUBSECTOR]);
    }

    /** Is the page of `src` at `from` all ones, so that it need not be programmed? */
    method IsErased(src: array<byte>, from: nat) returns (r: bool)
      requires from + PAGE <= src.Length
      ensures r == AllErased(src[from..from + PAGE])
    {
      ghost var page := src[from..from + PAGE];
      var cnt := 0;
      while cnt < PAGE && src[from + cnt] == 0xFF
        invariant cnt <= PAGE && forall k | 0 <= k < cnt :: page[k] == 0xFF
      {
        assert page[cnt] == src[from + cnt];
        cnt := cnt + 1;
      }
      r := cnt == PAGE;
      assert cnt < PAGE ==> page[cnt] == src[from + cnt];
    }

    method ProgramPage(a: nat, src: array<byte>, from: nat)
      requires Valid() && a % PAGE == 0 && a + PAGE <= SIZE && from + PAGE <= src.Length
      modifies extflash
      ensures Did(old(extflash.State()), OnePageOps(a, src[from..from + PAGE]), extflash.State())
    {
      hide Run, AllErased, Masked, Did;
      var erased := IsErased(src, from);
      DidNothing(extflash.State());
      if !erased {
        extflash.Write(a, src, from, PAGE);
      }
    }

    /** Programs the pages of an erased subsector. */
    method ProgramSubsector(begin: nat, src: array<byte>, from: nat)
      requires Valid() && begin % SUBSECTOR == 0 && begin + SUBSECTOR <= SIZE && from + SUBSECTOR <= src.Length
      modifies extflash
      ensures Did(old(extflash.State()), PageOps(begin, src[from..from + SUBSECTOR], 0), extflash.State())
    {
      hide Run, OnePageOps, PageOps, Doing, Did, Page;
      ghost var s, c := extflash.State(), src[from..from + SUBSECTOR];
      ghost var all := PageOps(begin, c, 0);
      DoingBounds(s, all, s);
      for j := 0 to PAGES
        invariant Doing(s, all, extflash.State(), PageOps(begin, c, j))
      {
        ghost var t := extflash.State();
        PageOfSlice(src[..], from, j);
        NextPage(begin, c, j);
        PageStart(begin, j);
        ProgramPage(begin + j * PAGE, src, from + j * PAGE);
        DoingNext(s, all, t, OnePageOps(begin + j * PAGE, Page(c, j)), extflash.State(), PageOps(begin, c, j + 1));
      }
      LastPage(begin, c);
      DoingBounds(s, all, extflash.State());
    }

    /** Erases a subsector and programs it anew. */
    method RewriteSubsector(z: nat, src: array<byte>, from: nat)
      requires Valid() && SubsectorBegin(z) + SUBSECTOR <= SIZE && from + SUBSECTOR <= src.Length
      modifies extflash
      ensures Did(old(extflash.State()), SubsectorOps(SubsectorBegin(z), src[from..from + SUBSECTOR]), extflash.State())
    {
      hide Run, PageOps, Did, SubsectorBegin;
      ghost var s := extflash.State();
      extflash.EraseSubsector(z);
      ghost var t := extflash.State();
      ProgramSubsector(SubsectorBegin(z), src, from);
      DidBoth(s, [Erase(SubsectorBegin(z))], t, PageOps(SubsectorBegin(z), src[from..from + SUBSECTOR], 0), extflash.State());
    }

    /** Rewrites the subsector of `z` with `len` bytes from `z` on replaced. */
    method PatchSubsector(z: nat, data: array<byte>, done: nat, len: nat)
      requires Valid() && SubsectorBegin(z) + SUBSECTOR <= SIZE && z + len <= SubsectorBegin(z) + SUBSECTOR
      requires done + len <= data.Length && data != scratch
      modifies extflash, scratch
      ensures var base := SubsectorBegin(z);
              Did(old(extflash.State()),
                  SubsectorOps(base, Splice(old(extflash.mem)[base..base + SUBSECTOR], z - base, data[done..done + len])),
                  extflash.State())
    {
      hide Run, Did, SubsectorOps, Splice;
      LoadSubsector(SubsectorBegin(z));
      Memcpy(scratch, z - SubsectorBegin(z), data, done, len);
      RewriteSubsector(z, scratch, 0);
      assert scratch[0..SUBSECTOR] == scratch[..];
    }

    /** Writes `size` bytes. With `erase` the rest of every touched subsector is
        kept; without, the bytes are programmed over whatever is there. Only a
        whole, aligned subsector may come from the scratch buffer itself. */
    method WriteData(address: nat, offset: nat, data: array<byte>, size: nat, erase: bool) returns (rc: Code)
      requires Valid() && address + offset + size <= SIZE && size <= data.Length
      requires data == scratch && erase ==> (address + offset) % SUBSECTOR == 0 && size == SUBSECTOR
      modifies extflash, scratch
      ensures rc == Ok && (data == scratch ==> scratch[..] == old(scratch[..]))
      ensures erase ==> Did(old(extflash.State()), WriteOps(old(extflash.mem), address + offset, old(data[..size])), extflash.State())
      ensures erase ==> extflash.mem == Splice(old(extflash.mem), address + offset, old(data[..size]))
      ensures !erase ==> Did(old(extflash.State()), ProgramOps(address + offset, old(data[..size])), extflash.State())
      ensures !erase ==> extflash.mem == Masked(old(extflash.mem), address + offset, old(data[..size]))
    {
      hide Run, Did, WriteOps, ProgramOps, Masked, Splice;
      if erase {
        WriteErasing(address + offset, data, size);
        WriteIsUpdate(old(extflash.mem), address + offset, old(data[..size]));
        DidMeans(old(extflash.State()), WriteOps(old(extflash.mem), address + offset, old(data[..size])), extflash.State());
      } else {
        WriteProgramming(address + offset, data, size);
        RunProgram(old(extflash.mem), address + offset, old(data[..size]));
        DidMeans(old(extflash.State()), ProgramOps(address + offset, old(data[..size])), extflash.State());
      }
      rc := Ok;
    }

    /** `write_data` without erasing: page by page. */
    method WriteProgramming(a: nat, data: array<byte>, size: nat)
      requires Valid() && a + size <= SIZE && size <= data.Length
      modifies extflash
      ensures Did(old(extflash.State()), ProgramOps(a, data[..size]), extflash.State())
    {
      hide PageCount, PageCursor, InPage, Did, Run, ProgramOps;
      var end, blocks := a + size, PageCount(a, size);
      var z, done := a, 0;
      ghost var s := extflash.State();
      PageRounds(a, size, 0);
      ProgramNothing(a, data[..]);
      DidNothing(s);
      for i := 0 to blocks
        invariant a <= z <= end && done == z - a && z == PageCursor(a, end, i)
        invariant Did(s, ProgramOps(a, data[..done]), extflash.State())
      {
        var pageEnd := z / PAGE * PAGE + PAGE;
        var stop := if end <= pageEnd then end else pageEnd;
        PageRounds(a, size, i);
        ghost var t := extflash.State();
        extflash.Write(z, data, done, stop - z);
        DidBoth(s, ProgramOps(a, data[..done]), t, ProgramOps(z, data[done..done + (stop - z)]), extflash.State());
        ProgramMore(a, data[..], done, done + (stop - z));
        done, z := done + (stop - z), stop;
      }
      PageRounds(a, size, blocks);
    }

    /** `write_data` with erasing: subsector by subsector. */
    method WriteErasing(a: nat, data: array<byte>, size: nat)
      requires Valid() && a + size <= SIZE && size <= data.Length
      requires data == scratch ==> a % SUBSECTOR == 0 && size == SUBSECTOR
      modifies extflash, scratch
      ensures data == scratch ==> scratch[..] == old(scratch[..])
      ensures Did(old(extflash.State()), WriteOps(old(extflash.mem), a, old(data[..size])), extflash.State())
    {
      hide SubsectorCount, SubsectorCursor, SubsectorBegin, Did, Run, CopyOps, SubsectorOps, Splice, Block;
      var end, blocks := a + size, SubsectorCount(a, size);
      var z, done := a, 0;
      ghost var s, f, d := extflash.State(), extflash.mem, data[..size];
      ghost var h, begin := Splice(f, a, d), SubsectorBegin(a);
      SubsectorsCover(a, size);
      SubsectorRounds(a, size, 0);
      CopyStarts(s, h, begin, begin);
      for i := 0 to blocks
        invariant a <= z <= end && done == z - a && z == SubsectorCursor(a, end, i)
        invariant Did(s, CopyOps(h, begin, begin, i), extflash.State())
        invariant data[..size] == d && (data == scratch ==> scratch[..] == old(scratch[..]))
      {
        var base := SubsectorBegin(z);
        var stop := if end <= base + SUBSECTOR then end else base + SUBSECTOR;
        SubsectorRounds(a, size, i);
        WriteRound(s, a, d, i, z, data, done, stop - z);
        done, z := done + (stop - z), stop;
      }
    }

    /** One round of `write_data` with erasing. */
    method WriteRound(ghost s: Chip, ghost a: nat, ghost d: seq<byte>, ghost i: nat, z: nat, data: array<byte>, done: nat, len: nat)
      requires Valid() && a + |d| <= SIZE && |d| <= data.Length && data[..|d|] == d
      requires data == scratch ==> a % SUBSECTOR == 0 && |d| == SUBSECTOR
      requires i < SubsectorCount(a, |d|) && SubsectorBegin(a) + SubsectorCount(a, |d|) * SUBSECTOR <= SIZE
      requires z == SubsectorCursor(a, a + |d|, i) && done == z - a && z + len == Min(a + |d|, SubsectorBegin(z) + SUBSECTOR)
      requires Did(s, CopyOps(Splice(s.mem, a, d), SubsectorBegin(a), SubsectorBegin(a), i), extflash.State())
      modifies extflash, scratch
      ensures data[..|d|] == d && (data == scratch ==> scratch[..] == old(scratch[..]))
      ensures Did(s, CopyOps(Splice(s.mem, a, d), SubsectorBegin(a), SubsectorBegin(a), i + 1), extflash.State())
    {
      hide SubsectorCount, SubsectorCursor, SubsectorBegin, Did, Run, CopyOps, SubsectorOps, Splice, Block;
      var base := SubsectorBegin(z);
      SubsectorRounds(a, |d|, i);
      AlignedCount(a);
      ghost var t, h, begin := extflash.State(), Splice(s.mem, a, d), SubsectorBegin(a);
      ArrayPiece(data, d, done, done + len);
      if z == base && len == SUBSECTOR {
        WholeBlock(s.mem, a, d, i);
        RewriteSubsector(z, data, done);
      } else {
        PatchedBlock(s, a, d, i, t);
        PatchSubsector(z, data, done, len);
      }
      CopyNext(h, begin, begin, i);
      DidBoth(s, CopyOps(h, begin, begin, i), t, SubsectorOps(base, Block(h, begin, i)), extflash.State());
    }

    /** Erases `counter` subsectors from number `start` on. */
    method EraseSubsectors(start: nat, counter: nat)
      requires Valid() && (start + counter) * SUBSECTOR <= SIZE
      modifies extflash
      ensures Did(old(extflash.State()), EraseOps(start, counter), extflash.State())
      ensures extflash.mem == Splice(old(extflash.mem), start * SUBSECTOR, Blank(counter * SUBSECTOR))
    {
      hide Run, Did, Splice;
      ghost var s := extflash.State();
      DidNothing(s);
      for i := 0 to counter
        invariant Did(s, EraseOps(start, i), extflash.State())
      {
        ghost var t := extflash.State();
        extflash.EraseSubsector((start + i) * SUBSECTOR);
        DidBoth(s, EraseOps(start, i), t, [Erase((start + i) * SUBSECTOR)], extflash.State());
        assert EraseOps(start, i + 1) == EraseOps(start, i) + [Erase((start + i) * SUBSECTOR)];
      }
      EraseDone(s.mem, start, counter);
      DidMeans(s, EraseOps(start, counter), extflash.State());
    }

    /** Wipes the index record. */
    method EmptyJournal()
      requires Valid()
      modifies extflash, scratch
      ensures Did(old(extflash.State()), IndexOps(old(extflash.mem), Blank(8)), extflash.State())
    {
      hide Run, Did, WriteOps, CopyOps, Splice, Masked;
      var journal := new byte[8](_ => 0xFF);
      assert journal[..8] == Blank(8);
      IndexWrite(extflash.mem, Blank(8));
      var rc := WriteData(INDEX, 0, journal, 8, true);
    }

    /** Replays the journal as record `journal` says, if it makes sense. */
    method HandleJournal(journal: Record) returns (rc: int)
      requires Valid() && (Accepted(journal) ==> Aligned(journal))
      modifies extflash, scratch
      ensures Did(old(extflash.State()), HandleOps(old(extflash.mem), journal), extflash.State())
      ensures rc == if journal.blocks == UNKNOWN || journal.dest == UNKNOWN then 0
                    else if journal.blocks > 2 then -1 else if journal.dest > SIZE then -2 else 1
    {
      hide Run, Did, IndexOps, CopyOps, Splice, WriteOps, Masked, Block, SubsectorOps;
      ghost var s := extflash.State();
      DidNothing(s);
      if journal.blocks == UNKNOWN {
        return 0;
      }
      if journal.dest == UNKNOWN {
        return 0;
      }
      if journal.blocks > 2 {
        EmptyJournal();
        return -1;
      }
      if journal.dest > SIZE {
        EmptyJournal();
        return -2;
      }
      Replay(journal);
      ghost var t := extflash.State();
      DidMeans(s, ReplayOps(s.mem, journal), t);
      EmptyJournal();
      DidBoth(s, ReplayOps(s.mem, journal), t, IndexOps(t.mem, Blank(8)), extflash.State());
      return 1;
    }

    /** Moves the journalled subsectors to where they belong. */
    method Replay(journal: Record)
      requires Valid() && Accepted(journal) && Aligned(journal)
      modifies extflash, scratch
      ensures Did(old(extflash.State()), ReplayOps(old(extflash.mem), journal), extflash.State())
    {
      hide Run, Did, CopyOps, Splice, WriteOps, Masked, SubsectorOps;
      ghost var s := extflash.State();
      CopyStarts(s, s.mem, JOURNAL, journal.dest);
      for i := 0 to journal.blocks
        invariant Did(s, CopyOps(s.mem, JOURNAL, journal.dest, i), extflash.State())
      {
        ghost var t, was := extflash.State(), scratch[..];
        ReadData(JOURNAL, i * SUBSECTOR, scratch, SUBSECTOR);
        JournalledBlock(s, journal, i, t, was);
        WriteBlock(journal.dest, i);
        CopyNext(s.mem, JOURNAL, journal.dest, i);
        DidBoth(s, CopyOps(s.mem, JOURNAL, journal.dest, i), t,
                SubsectorOps(journal.dest + i * SUBSECTOR, Block(s.mem, JOURNAL, i)), extflash.State());
      }
    }

    /** Writes the scratch buffer over subsector `i` counting from `address`. */
    method WriteBlock(address: nat, i: nat)
      requires Valid() && address % SUBSECTOR == 0 && address + i * SUBSECTOR + SUBSECTOR <= SIZE
      modifies extflash, scratch
      ensures scratch[..] == old(scratch[..])
      ensures Did(old(extflash.State()), SubsectorOps(address + i * SUBSECTOR, old(scratch[..])), extflash.State())
    {
      hide Run, Did, WriteOps, Splice, SubsectorOps;
      assert scratch[..SUBSECTOR] == scratch[..];
      AlignedWrite(extflash.mem, address + i * SUBSECTOR, scratch[..]);
      var rc := WriteData(address, i * SUBSECTOR, scratch, SUBSECTOR, true);
    }

    /** Replaces a range of at most one subsector, all or nothing. */
    method SecureWrite(address: nat, offset: nat, data: array<byte>, size: nat) returns (rc: Code)
      requires Valid() && data != scratch && size <= data.Length
      requires address + offset + size <= INDEX
      modifies extflash, scratch
      ensures rc == if size > SUBSECTOR then Overlap else Ok
      ensures rc.Overlap? ==> extflash.State() == old(extflash.State())
      ensures rc.Ok? ==> Did(old(extflash.State()), SecureWriteOps(old(extflash.mem), address + offset, data[..size]), extflash.State())
    {
      if size > SUBSECTOR {
        return Overlap;
      }
      Secure(address + offset, data, size);
      return Ok;
    }

    method Secure(a: nat, data: array<byte>, size: nat)
      requires Valid() && data != scratch && size <= data.Length && size <= SUBSECTOR && a + size <= INDEX
      modifies extflash, scratch
      ensures Did(old(extflash.State()), SecureWriteOps(old(extflash.mem), a, data[..size]), extflash.State())
    {
      hide Run, Did, StageOps, HandleOps, IndexOps, RecordBytes, WriteRecord, Accepted, Aligned;
      ghost var s, d := extflash.State(), data[..size];
      var r := WriteRecord(a, size);
      Stage(a, data, size);
      ghost var t := extflash.State();
      DidMeans(s, StageOps(s.mem, a, d), t);
      Publish(r);
      ghost var u := extflash.State();
      DidMeans(t, PublishOps(t.mem, a, d), u);
      var rc := HandleJournal(r);
      DidBoth(t, PublishOps(t.mem, a, d), u, HandleOps(u.mem, r), extflash.State());
      DidBoth(s, StageOps(s.mem, a, d), t, PublishOps(t.mem, a, d) + HandleOps(u.mem, r), extflash.State());
    }

    method Publish(r: Record)
      requires Valid()
      modifies extflash, scratch
      ensures Did(old(extflash.State()), IndexOps(old(extflash.mem), RecordBytes(r)), extflash.State())
    {
      hide Run, Did, WriteOps, CopyOps, Splice, Masked, RecordBytes;
      var b := RecordBytes(r);
      var journal := new byte[8](i requires 0 <= i < 8 => b[i]);
      assert journal[..8] == b;
      IndexWrite(extflash.mem, b);
      var rc := WriteData(INDEX, 0, journal, 8, true);
    }

    /** Patches the touched subsectors one by one into the journal. */
    method Stage(a: nat, data: array<byte>, size: nat)
      requires Valid() && data != scratch && size <= data.Length && size <= SUBSECTOR && a + size <= INDEX
      modifies extflash, scratch
      ensures Did(old(extflash.State()), StageOps(old(extflash.mem), a, data[..size]), extflash.State())
    {
      hide SubsectorCount, SubsectorCursor, SubsectorBegin, Did, Run, CopyOps, SubsectorOps, Splice, Block;
      var end, blocks := a + size, SubsectorCount(a, size);
      var z, done := a, 0;
      ghost var s, f, d := extflash.State(), extflash.mem, data[..size];
      ghost var h, begin := Splice(f, a, d), SubsectorBegin(a);
      SubsectorsCover(a, size);
      SubsectorRounds(a, size, 0);
      CopyStarts(s, h, begin, JOURNAL);
      for i := 0 to blocks
        invariant a <= z <= end && done == z - a && z == SubsectorCursor(a, end, i)
        invariant Did(s, CopyOps(h, begin, JOURNAL, i), extflash.State())
      {
        var base := SubsectorBegin(z);
        var stop := if end <= base + SUBSECTOR then end else base + SUBSECTOR;
        SubsectorRounds(a, size, i);
        StageRound(s, a, d, i, z, data, done, stop - z);
        done, z := done + (stop - z), stop;
      }
    }

    /** One round of staging. */
    method StageRound(ghost s: Chip, ghost a: nat, ghost d: seq<byte>, i: nat, z: nat, data: array<byte>, done: nat, len: nat)
      requires Valid() && data != scratch && |d| <= SUBSECTOR && a + |d| <= INDEX && |d| <= data.Length && data[..|d|] == d
      requires i < SubsectorCount(a, |d|) <= 2 && SubsectorBegin(a) + SubsectorCount(a, |d|) * SUBSECTOR <= INDEX
      requires z == SubsectorCursor(a, a + |d|, i) && done == z - a && z + len == Min(a + |d|, SubsectorBegin(z) + SUBSECTOR)
      requires Did(s, CopyOps(Splice(s.mem, a, d), SubsectorBegin(a), JOURNAL, i), extflash.State())
      modifies extflash, scratch
      ensures Did(s, CopyOps(Splice(s.mem, a, d), SubsectorBegin(a), JOURNAL, i + 1), extflash.State())
    {
      hide SubsectorCount, SubsectorCursor, SubsectorBegin, Did, Run, CopyOps, SubsectorOps, Splice, Block;
      var base := SubsectorBegin(z);
      SubsectorRounds(a, |d|, i);
      ghost var t, h, begin := extflash.State(), Splice(s.mem, a, d), SubsectorBegin(a);
      StagedBlock(s, a, d, i, t);
      ArrayPiece(data, d, done, done + len);
      LoadSubsector(base);
      Memcpy(scratch, z - base, data, done, len);
      WriteBlock(JOURNAL, i);
      CopyNext(h, begin, JOURNAL, i);
      DidBoth(s, CopyOps(h, begin, JOURNAL, i), t, SubsectorOps(JOURNAL + i * SUBSECTOR, Block(h, begin, i)), extflash.State());
    }

    /** Reads `size` bytes, page by page. */
    method ReadData(address: nat, offset: nat, data: array<byte>, size: nat)
      requires Valid() && address + offset + size <= SIZE && size <= data.Length
      modifies data
      ensures data[..] == Splice(old(data[..]), 0, extflash.mem[address + offset..address + offset + size])
    {
      hide PageCount, PageCursor, InPage, Gathered, Splice;
      var a, end := address + offset, address + offset + size;
      var blocks := PageCount(a, size);
      var z, done := a, 0;
      ghost var was := data[..];
      PageRounds(a, size, 0);
      GatheredNothing(was, extflash.mem, a);
      for i := 0 to blocks
        invariant a <= z <= end && done == z - a && z == PageCursor(a, end, i)
        invariant Gathered(was, extflash.mem, a, z, data[..])
      {
        var pageEnd := z / PAGE * PAGE + PAGE;
        var stop := if end <= pageEnd then end else pageEnd;
        PageRounds(a, size, i);
        ghost var before := data[..];
        extflash.Read(z, data, done, stop - z);
        GatheredNext(was, extflash.mem, a, z, before, stop);
        done, z := done + (stop - z), stop;
      }
      PageRounds(a, size, blocks);
      GatheredAll(was, extflash.mem, a, end, data[..]);
    }
  }

  /** `now` is `was` with the bytes of `[a, z)` read over its start. */
  predicate Gathered(was: seq<byte>, f: Image, a: nat, z: nat, now: seq<byte>)
    requires a <= z <= SIZE && z - a <= |was|
  {
    now == Splice(was, 0, f[a..z])
  }

  lemma GatheredNothing(was: seq<byte>, f: Image, a: nat)
    requires a <= SIZE
    ensures Gathered(was, f, a, a, was)
  {
  }

  lemma GatheredNext(was: seq<byte>, f: Image, a: nat, z: nat, now: seq<byte>, stop: nat)
    requires a <= z <= stop <= SIZE && stop - a <= |was| && Gathered(was, f, a, z, now)
    ensures Gathered(was, f, a, stop, Splice(now, z - a, f[z..stop]))
  {
    assert f[a..z] + f[z..stop] == f[a..stop];
    SpliceTwice(was, 0, f[a..z], f[z..stop]);
  }

  lemma GatheredAll(was: seq<byte>, f: Image, a: nat, end: nat, now: seq<byte>)
    requires a <= end <= SIZE && end - a <= |was| && Gathered(was, f, a, end, now)
    ensures now == Splice(was, 0, f[a..end])
  {
  }

  function EraseOps(start: nat, counter: nat): (ops: seq<Op>)
    requires (start + counter) * SUBSECTOR <= SIZE
    ensures |ops| == counter
  {
    seq(counter, i requires 0 <= i < counter => Erase((start + i) * SUBSECTOR))
  }

  lemma {:induction false} EraseDone(f: Image, start: nat, counter: nat)
    requires (start + counter) * SUBSECTOR <= SIZE
    ensures Run(f, EraseOps(start, counter)) == Splice(f, start * SUBSECTOR, Blank(counter * SUBSECTOR))
    decreases counter
  {
    if counter == 0 {
      assert Run(f, []) == f == Splice(f, start * SUBSECTOR, Blank(0));
    } else {
      var before, last := EraseOps(start, counter - 1), Erase((start + counter - 1) * SUBSECTOR);
      assert EraseOps(start, counter) == before + [last];
      RunConcat(f, before, [last]);
      RunOne(Run(f, before), last);
      EraseDone(f, start, counter - 1);
      SpliceTwice(f, start * SUBSECTOR, Blank((counter - 1) * SUBSECTOR), Blank(SUBSECTOR));
      assert Blank((counter - 1) * SUBSECTOR) + Blank(SUBSECTOR) == Blank(counter * SUBSECTOR);
    }
  }

  lemma IndexWrite(f: Image, b: seq<byte>)
    requires |b| == 8
    ensures WriteOps(f, INDEX, b) == IndexOps(f, b)
  {
  }

  lemma DidMeans(s: Chip, delta: seq<Op>, t: Chip)
    requires Did(s, delta, t)
    ensures t.mem == Run(s.mem, delta)
  {
  }

  lemma ProgramNothing(a: nat, d: seq<byte>)
    requires a <= SIZE
    ensures ProgramOps(a, d[..0]) == []
  {
  }

  lemma ProgramMore(a: nat, d: seq<byte>, x: nat, y: nat)
    requires x <= y <= |d| && a + y <= SIZE
    ensures ProgramOps(a, d[..x]) + ProgramOps(a + x, d[x..y]) == ProgramOps(a, d[..y])
  {
  }

  lemma CopyStarts(s: Chip, h: Image, src: nat, dst: nat)
    requires src <= SIZE && dst <= SIZE && dst % SUBSECTOR == 0
    ensures Did(s, CopyOps(h, src, dst, 0), s)
  {
    DidNothing(s);
  }

  /** Round `i` covers its whole subsector: the content is a piece of the data. */
  lemma WholeBlock(f: Image, a: nat, d: seq<byte>, i: nat)
    requires a + |d| <= SIZE && i < SubsectorCount(a, |d|)
    requires var z := SubsectorCursor(a, a + |d|, i); z == SubsectorBegin(z) && z + SUBSECTOR <= a + |d|
    ensures var z := SubsectorCursor(a, a + |d|, i);
            Block(Splice(f, a, d), SubsectorBegin(a), i) == d[z - a..z - a + SUBSECTOR]
  {
    hide SubsectorCount, SubsectorCursor, SubsectorBegin, Splice;
    SubsectorRounds(a, |d|, i);
    var z := SubsectorCursor(a, a + |d|, i);
    assert z == SubsectorBegin(a) + i * SUBSECTOR;
    SpliceSlice(f, a, d, z, z + SUBSECTOR);
  }

  /** Round `i` covers part of its subsector: the content is what was there,
      patched with a piece of the data. */
  lemma PatchedBlock(s: Chip, a: nat, d: seq<byte>, i: nat, t: Chip)
    requires a + |d| <= SIZE && i < SubsectorCount(a, |d|)
    requires SubsectorBegin(a) + SubsectorCount(a, |d|) * SUBSECTOR <= SIZE
    requires Did(s, CopyOps(Splice(s.mem, a, d), SubsectorBegin(a), SubsectorBegin(a), i), t)
    ensures PatchedIs(s.mem, t.mem, a, d, i)
  {
    hide SubsectorCount, SubsectorCursor, SubsectorBegin, Did, CopyOps, Run, Splice, PatchedIs;
    var begin := SubsectorBegin(a);
    Unread(s, Splice(s.mem, a, d), begin, begin, i, t, begin + i * SUBSECTOR);
    PatchedFrom(s.mem, t.mem, a, d, i);
  }

  /** While blocks are being copied away, a subsector elsewhere reads as before. */
  lemma Unread(s: Chip, h: Image, src: nat, dst: nat, i: nat, t: Chip, base: nat)
    requires src + i * SUBSECTOR <= SIZE && dst + i * SUBSECTOR <= SIZE && dst % SUBSECTOR == 0 && base + SUBSECTOR <= SIZE
    requires base + SUBSECTOR <= dst || dst + i * SUBSECTOR <= base
    requires Did(s, CopyOps(h, src, dst, i), t)
    ensures t.mem[base..base + SUBSECTOR] == s.mem[base..base + SUBSECTOR]
  {
    hide Did, CopyOps, Run;
    DidMeans(s, CopyOps(h, src, dst, i), t);
    RunEnds(s.mem, CopyOps(h, src, dst, i));
    CopyCut(s.mem, h, src, dst, i, |CopyOps(h, src, dst, i)|);
    SameSlice(s.mem, t.mem, dst, dst + i * SUBSECTOR, base, base + SUBSECTOR);
  }

  lemma PatchedFrom(f: Image, g: Image, a: nat, d: seq<byte>, i: nat)
    requires a + |d| <= SIZE && i < SubsectorCount(a, |d|) && SubsectorBegin(a) + SubsectorCount(a, |d|) * SUBSECTOR <= SIZE
    requires var base := SubsectorBegin(a) + i * SUBSECTOR; g[base..base + SUBSECTOR] == f[base..base + SUBSECTOR]
    ensures PatchedIs(f, g, a, d, i)
  {
    hide SubsectorCount, SubsectorCursor, SubsectorBegin, Splice;
    SubsectorRounds(a, |d|, i);
    PatchWithin(f, a, d, SubsectorBegin(a) + i * SUBSECTOR);
  }

  /** Block `i` of the updated image can be had from `g` and the data. */
  predicate PatchedIs(f: Image, g: Image, a: nat, d: seq<byte>, i: nat)
    requires a + |d| <= SIZE && SubsectorBegin(a) + i * SUBSECTOR + SUBSECTOR <= SIZE
  {
    var z := SubsectorCursor(a, a + |d|, i);
    var base := SubsectorBegin(z);
    var stop := Min(a + |d|, base + SUBSECTOR);
    && a <= z <= stop && base + SUBSECTOR <= SIZE
    && Splice(g[base..base + SUBSECTOR], z - base, d[z - a..stop - a]) == Block(Splice(f, a, d), SubsectorBegin(a), i)
  }

  /** The same while the blocks so far went to the journal. */
  lemma StagedBlock(s: Chip, a: nat, d: seq<byte>, i: nat, t: Chip)
    requires |d| <= SUBSECTOR && a + |d| <= INDEX && i < SubsectorCount(a, |d|) <= 2
    requires SubsectorBegin(a) + SubsectorCount(a, |d|) * SUBSECTOR <= INDEX
    requires Did(s, CopyOps(Splice(s.mem, a, d), SubsectorBegin(a), JOURNAL, i), t)
    ensures PatchedIs(s.mem, t.mem, a, d, i)
  {
    hide SubsectorCount, SubsectorCursor, SubsectorBegin, Did, CopyOps, Run, Splice, PatchedIs;
    var begin := SubsectorBegin(a);
    Unread(s, Splice(s.mem, a, d), begin, JOURNAL, i, t, begin + i * SUBSECTOR);
    PatchedFrom(s.mem, t.mem, a, d, i);
  }

  /** What replay reads back is what the journal held when it began. */
  lemma JournalledBlock(s: Chip, r: Record, i: nat, t: Chip, was: seq<byte>)
    requires r.blocks <= 2 && Aligned(r) && i < r.blocks && |was| == SUBSECTOR
    requires Did(s, CopyOps(s.mem, JOURNAL, r.dest, i), t)
    ensures Splice(was, 0, t.mem[JOURNAL + i * SUBSECTOR..JOURNAL + i * SUBSECTOR + SUBSECTOR]) == Block(s.mem, JOURNAL, i)
  {
    hide Did, CopyOps, Run;
    Unread(s, s.mem, JOURNAL, r.dest, i, t, JOURNAL + i * SUBSECTOR);
  }

  /** A whole aligned subsector is written in one round. */
  lemma AlignedCount(a: nat)
    ensures a % SUBSECTOR == 0 ==> SubsectorBegin(a) == a && SubsectorCount(a, SUBSECTOR) == 1
  {
  }

  lemma AlignedWrite(f: Image, base: nat, c: seq<byte>)
    requires |c| == SUBSECTOR && base + SUBSECTOR <= SIZE && base % SUBSECTOR == 0
    ensures WriteOps(f, base, c) == SubsectorOps(base, c)
  {
    hide SubsectorOps;
    assert Block(Splice(f, base, c), base, 0) == c;
    CopyNext(Splice(f, base, c), base, base, 0);
  }

  lemma PatchWithin(f: Image, a: nat, d: seq<byte>, base: nat)
    requires a + |d| <= SIZE && base + SUBSECTOR <= SIZE && a < base + SUBSECTOR && base <= a + |d|
    ensures var z, stop := Max(a, base), Min(a + |d|, base + SUBSECTOR);
            Splice(f, a, d)[base..base + SUBSECTOR] == Splice(f[base..base + SUBSECTOR], z - base, d[z - a..stop - a])
  {
    hide Splice;
    var z, stop := Max(a, base), Min(a + |d|, base + SUBSECTOR);
    var h, g, e := Splice(f, a, d), f[base..base + SUBSECTOR], d[z - a..stop - a];
    var x, y := h[base..base + SUBSECTOR], Splice(g, z - base, e);
    forall k | 0 <= k < SUBSECTOR
      ensures x[k] == y[k]
    {
      SpliceAt(f, a, d, base + k);
      SpliceAt(g, z - base, e, k);
    }
  }

  lemma SpliceAll(was: seq<byte>, d: seq<byte>)
    requires |was| == |d|
    ensures Splice(was, 0, d) == d
  {
  }

  lemma WholePage(begin: nat, j: nat)
    requires begin % SUBSECTOR == 0
    ensures InPage(begin + j * PAGE, PAGE)
  {
    var q := begin / SUBSECTOR;
    assert begin + j * PAGE == (q * PAGES + j) * PAGE;
  }

  lemma NextPage(base: nat, c: seq<byte>, j: nat)
    requires |c| == SUBSECTOR && base + SUBSECTOR <= SIZE && j < PAGES
    ensures PageOps(base, c, j) == OnePageOps(base + j * PAGE, Page(c, j)) + PageOps(base, c, j + 1)
  {
  }

  lemma LastPage(base: nat, c: seq<byte>)
    requires |c| == SUBSECTOR && base + SUBSECTOR <= SIZE
    ensures PageOps(base, c, PAGES) == []
  {
  }

  /** Pages of an aligned subsector are aligned. */
  lemma PageStart(begin: nat, j: nat)
    requires begin % SUBSECTOR == 0
    ensures (begin + j * PAGE) % PAGE == 0
  {
    var q := begin / SUBSECTOR;
    assert begin + j * PAGE == PAGE * (q * PAGES + j);
    Multiple(q * PAGES + j);
  }

  lemma Multiple(k: nat)
    ensures PAGE * k % PAGE == 0
  {
  }

  lemma PageOfSlice(s: seq<byte>, from: nat, j: nat)
    requires from + SUBSECTOR <= |s| && j < PAGES
    ensures Page(s[from..from + SUBSECTOR], j) == s[from + j * PAGE..from + j * PAGE + PAGE]
  {
    SliceOfSlice(s, from, from + SUBSECTOR, j * PAGE, j * PAGE + PAGE);
  }

  lemma SliceOfSlice(s: seq<byte>, lo: nat, hi: nat, x: nat, y: nat)
    requires lo <= hi <= |s| && x <= y <= hi - lo
    ensures s[lo..hi][x..y] == s[lo + x..lo + y]
  {
    var t := s[lo..hi];
    assert forall k | 0 <= k < y - x :: t[x..y][k] == t[x + k] == s[lo + x + k] == s[lo + x..lo + y][k];
  }
}
