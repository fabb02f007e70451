/** The redo journal: what `secure_write` and recovery do to the chip, and why a
    power cut at any moment leaves either the old or the new contents. */
module Journal {
  import opened Bytes
  import opened NorFlash
  import opened Streams
  import opened Options

  // ---- the index record ------------------------------------------------

  datatype Record = Record(blocks: u32, dest: u32)

  function RecordBytes(r: Record): (b: seq<byte>)
    ensures |b| == 8
  {
    ToLe32(r.blocks) + ToLe32(r.dest)
  }

  function DecodeRecord(b: seq<byte>): Record
    requires |b| == 8
  {
    Record(Le32(b[..4]), Le32(b[4..]))
  }

  function ReadRecord(f: Image): Record {
    DecodeRecord(f[INDEX..INDEX + 8])
  }

  /** Does `_handle_journal` replay this record? */
  predicate Accepted(r: Record) {
    r.blocks != UNKNOWN && r.dest != UNKNOWN && r.blocks <= 2 && r.dest <= SIZE
  }

  /** Is the destination made of whole subsectors below the index? */
  predicate Aligned(r: Record) {
    r.dest % SUBSECTOR == 0 && r.dest + r.blocks * SUBSECTOR <= INDEX
  }

  predicate Sound(f: Image) {
    Accepted(ReadRecord(f)) ==> Aligned(ReadRecord(f))
  }

  lemma RecordRoundTrip(r: Record)
    ensures DecodeRecord(RecordBytes(r)) == r
  {
    assert RecordBytes(r)[..4] == ToLe32(r.blocks) && RecordBytes(r)[4..] == ToLe32(r.dest);
  }

  lemma BlankRejected()
    ensures DecodeRecord(Blank(8)) == Record(UNKNOWN, UNKNOWN)
  {
    assert Blank(8)[..4] == Blank(4) == Blank(8)[4..];
  }

  /** A record whose programming was cut short is never replayed: its last byte
      is the top byte of the destination, which no valid address fills with ones. */
  lemma TornRejected(r: Record, t: nat)
    requires t < 8
    ensures !Accepted(DecodeRecord(RecordBytes(r)[..t] + Blank(8 - t)))
  {
    var b := RecordBytes(r)[..t] + Blank(8 - t);
    assert b[4..][3] == 0xFF;
    assert Le32(b[4..]) >= 0xFF00_0000;
  }

  // ---- operation streams -------------------------------------------------

  /** Rewriting the index subsector with `b` as its first bytes. */
  function IndexOps(f: Image, b: seq<byte>): seq<Op>
    requires |b| == 8
  {
    CopyOps(Splice(f, INDEX, b), INDEX, INDEX, 1)
  }

  function ReplayOps(f: Image, r: Record): seq<Op>
    requires r.blocks <= 2 && Aligned(r)
  {
    CopyOps(f, JOURNAL, r.dest, r.blocks)
  }

  /** What `_handle_journal` does about record `r`. */
  function HandleOps(f: Image, r: Record): seq<Op>
    requires Accepted(r) ==> Aligned(r)
  {
    if r.blocks == UNKNOWN || r.dest == UNKNOWN then []
    else if !Accepted(r) then IndexOps(f, Blank(8))
    else ReplayOps(f, r) + IndexOps(Run(f, ReplayOps(f, r)), Blank(8))
  }

  function RecoverOps(f: Image): seq<Op>
    requires Sound(f)
  {
    HandleOps(f, ReadRecord(f))
  }

  /** The index subsector once `b` has been written over its start. */
  function IndexBlock(f: Image, b: seq<byte>): (c: seq<byte>)
    requires |b| == 8
    ensures |c| == SUBSECTOR
  {
    Block(Splice(f, INDEX, b), INDEX, 0)
  }

  lemma IndexBlockStart(f: Image, b: seq<byte>)
    requires |b| == 8
    ensures IndexBlock(f, b)[..8] == b && (AllErased(Page(IndexBlock(f, b), 0)) ==> AllErased(b))
  {
    assert IndexBlock(f, b)[..8] == b;
    assert Page(IndexBlock(f, b), 0)[..8] == b;
  }

  lemma IndexOpsAre(f: Image, b: seq<byte>)
    requires |b| == 8
    ensures IndexOps(f, b) == SubsectorOps(INDEX, IndexBlock(f, b))
  {
    hide SubsectorOps, Splice;
    assert CopyOps(Splice(f, INDEX, b), INDEX, INDEX, 0) == [];
  }

  /** The first eight bytes of a subsector holding `u` bytes of `c`. */
  lemma TornStart(f: Image, c: seq<byte>, u: nat) returns (t: nat)
    requires |c| == SUBSECTOR && u <= SUBSECTOR
    ensures t == if u < 8 then u else 8
    ensures Splice(f, INDEX, c[..u] + Blank(SUBSECTOR - u))[INDEX..INDEX + 8] == c[..8][..t] + Blank(8 - t)
  {
    t := if u < 8 then u else 8;
    var d := c[..u] + Blank(SUBSECTOR - u);
    assert Splice(f, INDEX, d)[INDEX..INDEX + 8] == d[..8];
  }

  lemma IndexCutOutside(f: Image, b: seq<byte>, k: nat)
    requires |b| == 8 && k <= |IndexOps(f, b)|
    ensures SameOutside(f, RunTo(f, IndexOps(f, b), k), INDEX, INDEX + SUBSECTOR)
  {
    hide RunTo, CopyOps, SameOutside, Splice;
    CopyCut(f, Splice(f, INDEX, b), INDEX, INDEX, 1, k);
  }

  /** Power fails `k` operations into the rewriting of the index. */
  lemma IndexCut(f: Image, b: seq<byte>, k: nat) returns (t: nat)
    requires |b| == 8 && 0 < k <= |IndexOps(f, b)|
    ensures SameOutside(f, RunTo(f, IndexOps(f, b), k), INDEX, INDEX + SUBSECTOR)
    ensures t <= 8 && RunTo(f, IndexOps(f, b), k)[INDEX..INDEX + 8] == b[..t] + Blank(8 - t)
    ensures k == |IndexOps(f, b)| ==> t == 8
    ensures !AllErased(b) ==> t == if k <= 8 then k - 1 else 8
  {
    hide Run, RunTo, IndexOps, SubsectorOps, IndexBlock, AllErased, Page, Splice;
    var c := IndexBlock(f, b);
    IndexOpsAre(f, b);
    IndexBlockStart(f, b);
    IndexCutOutside(f, b, k);
    var u := SubsectorCut(f, INDEX, c, k);
    t := TornStart(f, c, u);
  }

  // ---- recovery ------------------------------------------------------------

  /** Nothing is pending and the chip holds `v` below the index. */
  predicate Clean(f: Image, v: seq<byte>) {
    !Accepted(ReadRecord(f)) && f[..INDEX] == v
  }

  /** The transaction `r` that leads to `v` is published and still replayable. */
  predicate Committed(f: Image, v: seq<byte>, r: Record) {
    && ReadRecord(f) == r && Accepted(r) && Aligned(r) && |v| == INDEX
    && f[JOURNAL..JOURNAL + r.blocks * SUBSECTOR] == v[r.dest..r.dest + r.blocks * SUBSECTOR]
    && forall i | 0 <= i < INDEX && !(r.dest <= i < r.dest + r.blocks * SUBSECTOR) :: f[i] == v[i]
  }

  lemma SameSlice(f: Image, g: Image, lo: nat, hi: nat, x: nat, y: nat)
    requires SameOutside(f, g, lo, hi) && x <= y <= SIZE && (y <= lo || hi <= x)
    ensures f[x..y] == g[x..y]
  {
  }

  /** Emptying the index, cut or not. */
  lemma EmptyCut(f: Image, k: nat)
    requires k <= |IndexOps(f, Blank(8))|
    ensures var g := RunTo(f, IndexOps(f, Blank(8)), k);
            && g[..INDEX] == f[..INDEX] && g[JOURNAL..] == f[JOURNAL..]
            && ReadRecord(g) == if k == 0 then ReadRecord(f) else Record(UNKNOWN, UNKNOWN)
  {
    hide Run, RunTo, IndexOps, DecodeRecord;
    if k == 0 {
      RunEnds(f, IndexOps(f, Blank(8)));
    } else {
      var g := RunTo(f, IndexOps(f, Blank(8)), k);
      var t := IndexCut(f, Blank(8), k);
      SameSlice(f, g, INDEX, INDEX + SUBSECTOR, 0, INDEX);
      SameSlice(f, g, INDEX, INDEX + SUBSECTOR, JOURNAL, SIZE);
      assert Blank(8)[..t] + Blank(8 - t) == Blank(8);
      BlankRejected();
    }
  }

  /** Replaying, cut or not, keeps the transaction replayable, and in the end
      the new contents are in place. */
  lemma ReplayCut(f: Image, v: seq<byte>, r: Record, k: nat)
    requires Committed(f, v, r) && k <= |ReplayOps(f, r)|
    ensures Committed(RunTo(f, ReplayOps(f, r), k), v, r)
    ensures Run(f, ReplayOps(f, r))[..INDEX] == v
  {
    hide Run, RunTo, CopyOps, DecodeRecord, Splice;
    var hi := r.dest + r.blocks * SUBSECTOR;
    var g := RunTo(f, ReplayOps(f, r), k);
    CopyCut(f, f, JOURNAL, r.dest, r.blocks, k);
    SameSlice(f, g, r.dest, hi, INDEX, INDEX + 8);
    SameSlice(f, g, r.dest, hi, JOURNAL, JOURNAL + r.blocks * SUBSECTOR);
    CopyDone(f, f, JOURNAL, r.dest, r.blocks);
    ReplayedBelow(f, v, r);
  }

  lemma ReplayedBelow(f: Image, v: seq<byte>, r: Record)
    requires Committed(f, v, r)
    ensures Splice(f, r.dest, f[JOURNAL..JOURNAL + r.blocks * SUBSECTOR])[..INDEX] == v
  {
  }

  /** Recovery, cut after `k` operations, keeps a clean chip clean. */
  lemma RecoverClean(f: Image, v: seq<byte>, k: nat)
    requires Clean(f, v) && k <= |RecoverOps(f)|
    ensures Clean(RunTo(f, RecoverOps(f), k), v)
  {
    hide Run, RunTo, IndexOps;
    if RecoverOps(f) == [] {
      RunEnds(f, RecoverOps(f));
    } else {
      EmptyCut(f, k);
    }
  }

  /** Recovery, cut after `k` operations, keeps a published transaction
      replayable or completes it; uncut, it completes it. */
  lemma RecoverCommitted(f: Image, v: seq<byte>, r: Record, k: nat)
    requires Committed(f, v, r) && k <= |RecoverOps(f)|
    ensures Committed(RunTo(f, RecoverOps(f), k), v, r) || Clean(RunTo(f, RecoverOps(f), k), v)
    ensures k == |RecoverOps(f)| ==> Clean(RunTo(f, RecoverOps(f), k), v)
  {
    var first := ReplayOps(f, r);
    var g := Run(f, first);
    var last := IndexOps(g, Blank(8));
    assert RecoverOps(f) == first + last;
    hide Run, RunTo, IndexOps, ReplayOps;
    RunCut(f, first, last, k);
    ReplayCut(f, v, r, |first|);
    RunEnds(f, first);
    if k < |first| {
      ReplayCut(f, v, r, k);
    } else {
      EmptyCut(g, k - |first|);
      EmptyNeeded(g);
    }
  }

  /** Emptying the index always takes an operation. */
  lemma EmptyNeeded(f: Image)
    ensures |IndexOps(f, Blank(8))| > 0
  {
    IndexOpsAre(f, Blank(8));
  }

  // ---- secure_write --------------------------------------------------------

  /** The record that `secure_write` publishes. */
  function WriteRecord(a: nat, size: nat): (r: Record)
    requires size <= SUBSECTOR && a + size <= INDEX
    ensures Accepted(r) && Aligned(r) && r.dest <= a && a + size <= r.dest + r.blocks * SUBSECTOR
  {
    SubsectorsCover(a, size);
    Record(SubsectorCount(a, size), SubsectorBegin(a))
  }

  /** Staging the patched subsectors in the journal. */
  function StageOps(f: Image, a: nat, d: seq<byte>): seq<Op>
    requires |d| <= SUBSECTOR && a + |d| <= INDEX
  {
    var r := WriteRecord(a, |d|);
    CopyOps(Splice(f, a, d), r.dest, JOURNAL, r.blocks)
  }

  function PublishOps(f: Image, a: nat, d: seq<byte>): seq<Op>
    requires |d| <= SUBSECTOR && a + |d| <= INDEX
  {
    IndexOps(f, RecordBytes(WriteRecord(a, |d|)))
  }

  /** Everything `secure_write` does to the chip. */
  function SecureWriteOps(f: Image, a: nat, d: seq<byte>): seq<Op>
    requires |d| <= SUBSECTOR && a + |d| <= INDEX
  {
    var staged := Run(f, StageOps(f, a, d));
    var published := Run(staged, PublishOps(staged, a, d));
    StageOps(f, a, d) + (PublishOps(staged, a, d) + HandleOps(published, WriteRecord(a, |d|)))
  }

  /** The moment the whole record is on the chip: staging, the erasure of the
      index, and the eight bytes of the record. */
  function CommitPoint(f: Image, a: nat, d: seq<byte>): nat
    requires |d| <= SUBSECTOR && a + |d| <= INDEX
  {
    |StageOps(f, a, d)| + 9
  }

  lemma StageCut(f: Image, a: nat, d: seq<byte>, k: nat)
    requires |d| <= SUBSECTOR && a + |d| <= INDEX && k <= |StageOps(f, a, d)|
    ensures var g := RunTo(f, StageOps(f, a, d), k); ReadRecord(g) == ReadRecord(f) && g[..INDEX] == f[..INDEX]
  {
    hide Run, RunTo, CopyOps, DecodeRecord, Splice, SubsectorCount, SubsectorBegin;
    var r := WriteRecord(a, |d|);
    var g := RunTo(f, StageOps(f, a, d), k);
    CopyCut(f, Splice(f, a, d), r.dest, JOURNAL, r.blocks, k);
    SameSlice(f, g, JOURNAL, JOURNAL + r.blocks * SUBSECTOR, 0, INDEX);
    SameSlice(f, g, JOURNAL, JOURNAL + r.blocks * SUBSECTOR, INDEX, INDEX + 8);
  }

  /** Once staged, the journal holds the patched subsectors. */
  lemma Staged(f: Image, a: nat, d: seq<byte>)
    requires |d| <= SUBSECTOR && a + |d| <= INDEX
    ensures var g, r := Run(f, StageOps(f, a, d)), WriteRecord(a, |d|);
            && g[..INDEX] == f[..INDEX] && ReadRecord(g) == ReadRecord(f)
            && g[JOURNAL..JOURNAL + r.blocks * SUBSECTOR] == Splice(f, a, d)[r.dest..r.dest + r.blocks * SUBSECTOR]
  {
    hide Run, RunTo, CopyOps, DecodeRecord, SubsectorCount, SubsectorBegin;
    var r := WriteRecord(a, |d|);
    var ops := StageOps(f, a, d);
    RunEnds(f, ops);
    StageCut(f, a, d, |ops|);
    CopyDone(f, Splice(f, a, d), r.dest, JOURNAL, r.blocks);
  }

  /** Publishing, cut: before the record is complete nothing has happened, from
      then on the transaction is committed. */
  lemma PublishCut(f: Image, v: seq<byte>, r: Record, k: nat)
    requires Accepted(r) && !Accepted(ReadRecord(f)) && Ready(f, v, r) && k <= |IndexOps(f, RecordBytes(r))|
    ensures var g := RunTo(f, IndexOps(f, RecordBytes(r)), k);
            if k < 9 then Clean(g, f[..INDEX]) else Committed(g, v, r)
    ensures |IndexOps(f, RecordBytes(r))| >= 9
  {
    var g := RunTo(f, IndexOps(f, RecordBytes(r)), k);
    RecordNotErased(r);
    PublishLength(f, r);
    hide Run, RunTo, IndexOps, DecodeRecord, RecordBytes, AllErased, Accepted, Ready, Committed, Aligned, SameOutside;
    PublishedStart(f, r, k);
    if k >= 9 {
      RecordRoundTrip(r);
      PublishedReady(f, g, v, r);
    }
  }

  lemma PublishedStart(f: Image, r: Record, k: nat)
    requires !AllErased(RecordBytes(r)) && k <= |IndexOps(f, RecordBytes(r))|
    ensures var g := RunTo(f, IndexOps(f, RecordBytes(r)), k);
            && g[..INDEX] == f[..INDEX] && g[JOURNAL..] == f[JOURNAL..]
            && (k == 0 ==> g == f)
            && (0 < k < 9 ==> !Accepted(ReadRecord(g)))
            && (k >= 9 ==> g[INDEX..INDEX + 8] == RecordBytes(r))
  {
    var ops := IndexOps(f, RecordBytes(r));
    var g := RunTo(f, ops, k);
    hide Run, RunTo, IndexOps, DecodeRecord, RecordBytes, AllErased, Accepted, SameOutside;
    if k == 0 {
      RunEnds(f, ops);
    } else {
      var t := IndexCut(f, RecordBytes(r), k);
      SameSlice(f, g, INDEX, INDEX + SUBSECTOR, 0, INDEX);
      SameSlice(f, g, INDEX, INDEX + SUBSECTOR, JOURNAL, SIZE);
      if k < 9 {
        TornRejected(r, t);
      } else {
        assert RecordBytes(r)[..8] + Blank(0) == RecordBytes(r);
      }
    }
  }

  /** The journal holds what `r` is to put in place, and that leads to `v`. */
  predicate Ready(f: Image, v: seq<byte>, r: Record)
    requires Accepted(r)
  {
    && Aligned(r) && |v| == INDEX
    && f[JOURNAL..JOURNAL + r.blocks * SUBSECTOR] == v[r.dest..r.dest + r.blocks * SUBSECTOR]
    && forall i | 0 <= i < INDEX && !(r.dest <= i < r.dest + r.blocks * SUBSECTOR) :: f[i] == v[i]
  }

  lemma PublishedReady(f: Image, g: Image, v: seq<byte>, r: Record)
    requires Accepted(r) && Ready(f, v, r) && ReadRecord(g) == r
    requires g[..INDEX] == f[..INDEX] && g[JOURNAL..] == f[JOURNAL..]
    ensures Committed(g, v, r)
  {
    hide DecodeRecord;
    assert forall i | 0 <= i < INDEX :: g[i] == g[..INDEX][i] == f[i];
    var n := r.blocks * SUBSECTOR;
    assert g[JOURNAL..JOURNAL + n] == g[JOURNAL..][..n] == f[JOURNAL..JOURNAL + n];
  }

  /** Staging makes the transaction ready. */
  lemma StagedReady(f: Image, a: nat, d: seq<byte>)
    requires |d| <= SUBSECTOR && a + |d| <= INDEX
    ensures var g := Run(f, StageOps(f, a, d));
            && Ready(g, Splice(f, a, d)[..INDEX], WriteRecord(a, |d|))
            && g[..INDEX] == f[..INDEX] && ReadRecord(g) == ReadRecord(f)
  {
    hide Run, RunTo, StageOps, WriteRecord, DecodeRecord, Accepted, Splice, SubsectorCount, SubsectorBegin;
    var r, h := WriteRecord(a, |d|), Splice(f, a, d);
    var g := Run(f, StageOps(f, a, d));
    Staged(f, a, d);
    SliceBelow(h, r.dest, r.dest + r.blocks * SUBSECTOR);
    PatchOutside(f, g, a, d, r);
  }

  lemma SliceBelow(h: Image, lo: nat, hi: nat)
    requires lo <= hi <= INDEX
    ensures h[..INDEX][lo..hi] == h[lo..hi]
  {
  }

  lemma PatchOutside(f: Image, g: Image, a: nat, d: seq<byte>, r: Record)
    requires g[..INDEX] == f[..INDEX] && Aligned(r)
    requires r.dest <= a && a + |d| <= r.dest + r.blocks * SUBSECTOR
    ensures forall i | 0 <= i < INDEX && !(r.dest <= i < r.dest + r.blocks * SUBSECTOR) :: g[i] == Splice(f, a, d)[..INDEX][i]
  {
    forall i | 0 <= i < INDEX && !(r.dest <= i < r.dest + r.blocks * SUBSECTOR)
      ensures g[i] == Splice(f, a, d)[..INDEX][i]
    {
      assert g[i] == g[..INDEX][i] == f[i];
    }
  }

  lemma RecordNotErased(r: Record)
    requires Accepted(r)
    ensures !AllErased(RecordBytes(r))
  {
    if AllErased(RecordBytes(r)) {
      assert RecordBytes(r) == Blank(8);
      RecordRoundTrip(r);
      BlankRejected();
    }
  }

  lemma PublishLength(f: Image, r: Record)
    requires !AllErased(RecordBytes(r))
    ensures |IndexOps(f, RecordBytes(r))| >= 9
  {
    var c := IndexBlock(f, RecordBytes(r));
    IndexBlockStart(f, RecordBytes(r));
    IndexOpsAre(f, RecordBytes(r));
    hide Page, AllErased, IndexBlock, IndexOps, RecordBytes;
    assert PageOps(INDEX, c, 0) == ProgramOps(INDEX, Page(c, 0)) + PageOps(INDEX, c, 1);
  }

  // ---- power cuts ----------------------------------------------------------

  /** The contents below the index that the chip stands for: with a published
      transaction, those it will have once the journal has been replayed. */
  function Contents(f: Image): (v: seq<byte>)
    requires Sound(f)
    ensures |v| == INDEX
  {
    var r := ReadRecord(f);
    if Accepted(r) then Splice(f, r.dest, f[JOURNAL..JOURNAL + r.blocks * SUBSECTOR])[..INDEX] else f[..INDEX]
  }

  lemma CleanContents(f: Image, v: seq<byte>)
    requires Clean(f, v)
    ensures Sound(f) && Contents(f) == v
  {
  }

  lemma CommittedContents(f: Image, v: seq<byte>, r: Record)
    requires Committed(f, v, r)
    ensures Sound(f) && Contents(f) == v
  {
    ReplayedBelow(f, v, r);
  }

  lemma ContentsCommitted(f: Image)
    requires Sound(f) && Accepted(ReadRecord(f))
    ensures Committed(f, Contents(f), ReadRecord(f))
  {
    var r, v := ReadRecord(f), Contents(f);
    var d := f[JOURNAL..JOURNAL + r.blocks * SUBSECTOR];
    assert v[r.dest..r.dest + |d|] == Splice(f, r.dest, d)[r.dest..r.dest + |d|] == d;
  }

  /** Recovery, wherever it is cut, keeps what the chip stands for. */
  lemma RecoverKeeps(f: Image, k: nat)
    requires Sound(f) && k <= |RecoverOps(f)|
    ensures var g := RunTo(f, RecoverOps(f), k);
            && Sound(g) && Contents(g) == Contents(f)
            && (k == |RecoverOps(f)| ==> Clean(g, Contents(f)))
  {
    var g, v := RunTo(f, RecoverOps(f), k), Contents(f);
    if Accepted(ReadRecord(f)) {
      ContentsCommitted(f);
      RecoverCommitted(f, v, ReadRecord(f), k);
      if Committed(g, v, ReadRecord(f)) {
        CommittedContents(g, v, ReadRecord(f));
      } else {
        CleanContents(g, v);
      }
    } else {
      RecoverClean(f, v, k);
      CleanContents(g, v);
    }
  }

  /** Start-ups cut after the given numbers of operations, then one that is not
      cut. None if recovery meets a record whose replay would leave the model. */
  function RecoverThrough(f: Image, cuts: seq<nat>): Option<Image>
    decreases |cuts|
  {
    if !Sound(f) then None
    else if cuts == [] then Some(Run(f, RecoverOps(f)))
    else RecoverThrough(RunTo(f, RecoverOps(f), Min(cuts[0], |RecoverOps(f)|)), cuts[1..])
  }

  function Min(x: nat, y: nat): nat {
    if x <= y then x else y
  }

  lemma {:induction false} RecoverThroughKeeps(f: Image, cuts: seq<nat>)
    requires Sound(f)
    ensures RecoverThrough(f, cuts).Some? && Clean(RecoverThrough(f, cuts).value, Contents(f))
    decreases |cuts|
  {
    var ops := RecoverOps(f);
    RunEnds(f, ops);
    RecoverKeeps(f, |ops|);
    if cuts != [] {
      RecoverKeeps(f, Min(cuts[0], |ops|));
      RecoverThroughKeeps(RunTo(f, ops, Min(cuts[0], |ops|)), cuts[1..]);
    }
  }

  /** A `secure_write` cut after `k` operations stands for the old contents
      before the commit point, and for the new ones from there on. */
  lemma SecureWriteCut(f: Image, a: nat, d: seq<byte>, k: nat)
    requires !Accepted(ReadRecord(f)) && |d| <= SUBSECTOR && a + |d| <= INDEX && k <= |SecureWriteOps(f, a, d)|
    ensures var g := RunTo(f, SecureWriteOps(f, a, d), k);
            && Sound(g)
            && Contents(g) == if k < CommitPoint(f, a, d) then f[..INDEX] else Splice(f, a, d)[..INDEX]
    ensures k == |SecureWriteOps(f, a, d)| ==> Clean(RunTo(f, SecureWriteOps(f, a, d), k), Splice(f, a, d)[..INDEX])
    ensures CommitPoint(f, a, d) <= |SecureWriteOps(f, a, d)|
  {
    var stage, publish, rest, r := SecureWriteParts(f, a, d);
    hide Run, RunTo, StageOps, Splice, SecureWriteOps, Contents, Clean, Ready, Accepted, ReadRecord, Sound, IndexOps, RecordBytes,
      RecoverOps;
    if k <= |stage| {
      StageCutClean(f, a, d, k);
      RunCut(f, stage, publish + rest, k);
    } else {
      LaterCut(f, Splice(f, a, d)[..INDEX], stage, publish, rest, r, k);
    }
  }

  /** Power fails in the second or third part. */
  lemma LaterCut(f: Image, v: seq<byte>, stage: seq<Op>, publish: seq<Op>, rest: seq<Op>, r: Record, k: nat)
    requires |stage| < k <= |stage + (publish + rest)|
    requires Phases(Run(f, stage), v, publish, rest, r)
    ensures var g := RunTo(f, stage + (publish + rest), k);
            && Sound(g) && Contents(g) == (if k < |stage| + 9 then Run(f, stage)[..INDEX] else v)
            && (k == |stage + (publish + rest)| ==> Clean(g, v))
  {
    var staged := Run(f, stage);
    hide Run, RunTo, Contents, Clean, Ready, Accepted, ReadRecord, Sound, IndexOps, RecordBytes, RecoverOps;
    RunCut(f, stage, publish + rest, k);
    var m := k - |stage|;
    RunCut(staged, publish, rest, m);
    if m < |publish| {
      PublishCutKeeps(staged, v, r, m);
    } else {
      RecoverKeeps(Run(staged, publish), m - |publish|);
    }
  }

  /** From the staged image on: `publish` writes the record and `rest` is what
      recovery would do about it. */
  predicate Phases(staged: Image, v: seq<byte>, publish: seq<Op>, rest: seq<Op>, r: Record) {
    && Accepted(r) && !Accepted(ReadRecord(staged)) && Ready(staged, v, r)
    && publish == IndexOps(staged, RecordBytes(r)) && |publish| >= 9
    && var published := Run(staged, publish);
       Sound(published) && Contents(published) == v && rest == RecoverOps(published)
  }

  /** The three parts of a `secure_write` and the states between them. */
  lemma SecureWriteParts(f: Image, a: nat, d: seq<byte>)
    returns (stage: seq<Op>, publish: seq<Op>, rest: seq<Op>, r: Record)
    requires !Accepted(ReadRecord(f)) && |d| <= SUBSECTOR && a + |d| <= INDEX
    ensures SecureWriteOps(f, a, d) == stage + (publish + rest) && stage == StageOps(f, a, d)
    ensures Phases(Run(f, stage), Splice(f, a, d)[..INDEX], publish, rest, r) && Run(f, stage)[..INDEX] == f[..INDEX]
  {
    var v := Splice(f, a, d)[..INDEX];
    r := WriteRecord(a, |d|);
    stage := StageOps(f, a, d);
    var staged := Run(f, stage);
    publish := PublishOps(staged, a, d);
    rest := HandleOps(Run(staged, publish), r);
    assert SecureWriteOps(f, a, d) == stage + (publish + rest);
    StagedReady(f, a, d);
    hide Run, RunTo, StageOps, HandleOps, Splice, SecureWriteOps, WriteRecord, Contents, Ready, Accepted, ReadRecord, Sound, Aligned,
      IndexOps, RecordBytes, CopyOps;
    RunEnds(staged, publish);
    PublishCut(staged, v, r, |publish|);
    CommittedContents(Run(staged, publish), v, r);
  }

  lemma StageCutClean(f: Image, a: nat, d: seq<byte>, k: nat)
    requires !Accepted(ReadRecord(f)) && |d| <= SUBSECTOR && a + |d| <= INDEX && k <= |StageOps(f, a, d)|
    ensures var g := RunTo(f, StageOps(f, a, d), k); Sound(g) && Contents(g) == f[..INDEX]
  {
    hide Run, RunTo, StageOps, Contents, DecodeRecord;
    StageCut(f, a, d, k);
    CleanContents(RunTo(f, StageOps(f, a, d), k), f[..INDEX]);
  }

  lemma PublishCutKeeps(f: Image, v: seq<byte>, r: Record, k: nat)
    requires Accepted(r) && !Accepted(ReadRecord(f)) && Ready(f, v, r) && k <= |IndexOps(f, RecordBytes(r))|
    ensures var g := RunTo(f, IndexOps(f, RecordBytes(r)), k);
            Sound(g) && Contents(g) == if k < 9 then f[..INDEX] else v
  {
    hide Run, RunTo, IndexOps, Contents, Ready, Committed, Clean;
    PublishCut(f, v, r, k);
    var g := RunTo(f, IndexOps(f, RecordBytes(r)), k);
    if k < 9 {
      CleanContents(g, f[..INDEX]);
    } else {
      CommittedContents(g, v, r);
    }
  }

  /** Crash atomicity: cut `secure_write` anywhere, then let recovery be cut any
      number of times. Below the index the chip ends with exactly the old
      contents, or with exactly those contents with the range replaced. */
  lemma SecureWriteAtomic(f: Image, a: nat, d: seq<byte>, k: nat, cuts: seq<nat>)
    requires Settled(f) && |d| <= SUBSECTOR && a + |d| <= INDEX
    ensures var ops := SecureWriteOps(f, a, d);
            var end := RecoverThrough(RunTo(f, ops, Min(k, |ops|)), cuts);
            && end.Some? && Settled(end.value)
            && end.value[..INDEX] == if k < CommitPoint(f, a, d) then f[..INDEX] else Splice(f, a, d)[..INDEX]
  {
    hide RunTo, Run, SecureWriteOps, RecoverThrough, RecoverOps, CommitPoint, Splice, Contents, ReadRecord, Sound;
    var ops := SecureWriteOps(f, a, d);
    SecureWriteCut(f, a, d, |ops|);
    SecureWriteCut(f, a, d, Min(k, |ops|));
    RecoverThroughKeeps(RunTo(f, ops, Min(k, |ops|)), cuts);
  }

  // ---- stretches of work ---------------------------------------------------

  /** No transaction is waiting. */
  predicate Settled(f: Image) {
    !Accepted(ReadRecord(f))
  }

  /** Does the history of `t` continue that of `s`? */
  predicate Follows(s: Chip, t: Chip) {
    |s.ops| <= |t.ops| && Did(s, Since(s, t), t)
  }

  function Since(s: Chip, t: Chip): seq<Op>
    requires |s.ops| <= |t.ops|
  {
    t.ops[|s.ops|..]
  }

  /** The chip if power fails `k` operations after `s`, on the way to `t`. */
  function CutAt(s: Chip, t: Chip, k: nat): Image
    requires |s.ops| <= |t.ops| && k <= |Since(s, t)|
  {
    RunTo(s.mem, Since(s, t), k)
  }

  /** Wherever power fails on the way, the chip stands for the contents it had
      or for those it was to get. */
  predicate Atomic(s: Chip, t: Chip) {
    && Follows(s, t) && Settled(s.mem) && Settled(t.mem)
    && forall k | 0 <= k <= |Since(s, t)| ::
         Sound(CutAt(s, t, k)) && (Contents(CutAt(s, t, k)) == s.mem[..INDEX] || Contents(CutAt(s, t, k)) == t.mem[..INDEX])
  }

  predicate SameBut(v: seq<byte>, w: seq<byte>, lo: nat, hi: nat) {
    |v| == |w| && forall i | 0 <= i < |v| && !(lo <= i < hi) :: v[i] == w[i]
  }

  /** Wherever power fails on the way, only the given range can have changed. */
  predicate Within(s: Chip, t: Chip, lo: nat, hi: nat) {
    && Follows(s, t) && Settled(s.mem) && Settled(t.mem)
    && forall k | 0 <= k <= |Since(s, t)| ::
         Sound(CutAt(s, t, k)) && SameBut(Contents(CutAt(s, t, k)), s.mem[..INDEX], lo, hi)
  }

  lemma DidFollows(s: Chip, delta: seq<Op>, t: Chip)
    requires Did(s, delta, t)
    ensures Follows(s, t) && Since(s, t) == delta
  {
    assert t.ops[|s.ops|..] == delta;
  }

  lemma StandStill(s: Chip)
    requires Settled(s.mem)
    ensures Atomic(s, s)
  {
    hide Run, RunTo, Contents, Accepted, ReadRecord;
    DidNothing(s);
    DidFollows(s, [], s);
    RunEnds(s.mem, []);
    SettledContents(s.mem);
  }

  lemma SettledContents(f: Image)
    requires Settled(f)
    ensures Sound(f) && Contents(f) == f[..INDEX]
  {
  }

  /** A completed `secure_write` is atomic and is a plain update of the range. */
  lemma SecureIsAtomic(s: Chip, a: nat, d: seq<byte>, t: Chip)
    requires Settled(s.mem) && |d| <= SUBSECTOR && a + |d| <= INDEX && Did(s, SecureWriteOps(s.mem, a, d), t)
    ensures Atomic(s, t) && t.mem[..INDEX] == Splice(s.mem[..INDEX], a, d)
  {
    hide Run, RunTo, Contents, SecureWriteOps, Sound, ReadRecord, Splice, Accepted, CommitPoint;
    var ops := SecureWriteOps(s.mem, a, d);
    DidFollows(s, ops, t);
    RunEnds(s.mem, ops);
    SecureWriteCut(s.mem, a, d, |ops|);
    SpliceBelow(s.mem, a, d);
    forall k | 0 <= k <= |ops|
      ensures Sound(CutAt(s, t, k)) && (Contents(CutAt(s, t, k)) == s.mem[..INDEX] || Contents(CutAt(s, t, k)) == t.mem[..INDEX])
    {
      SecureWriteCut(s.mem, a, d, k);
    }
  }

  lemma SpliceBelow(f: Image, a: nat, d: seq<byte>)
    requires a + |d| <= INDEX
    ensures Splice(f, a, d)[..INDEX] == Splice(f[..INDEX], a, d)
  {
  }

  /** Plain writing below the index. */
  lemma WriteIsWithin(s: Chip, ops: seq<Op>, t: Chip, lo: nat, hi: nat)
    requires Settled(s.mem) && Did(s, ops, t) && TouchesOnly(ops, lo, hi) && hi <= INDEX
    ensures Within(s, t, lo, hi)
  {
    hide Run, RunTo, Contents, Sound, TouchesOnly, SameBut, Settled;
    DidFollows(s, ops, t);
    RunEnds(s.mem, ops);
    CutKeepsIndex(s.mem, ops, lo, hi, |ops|);
    forall k | 0 <= k <= |ops|
      ensures Sound(CutAt(s, t, k)) && SameBut(Contents(CutAt(s, t, k)), s.mem[..INDEX], lo, hi)
    {
      CutKeepsIndex(s.mem, ops, lo, hi, k);
    }
  }

  lemma CutKeepsIndex(f: Image, ops: seq<Op>, lo: nat, hi: nat, k: nat)
    requires Settled(f) && TouchesOnly(ops, lo, hi) && hi <= INDEX && k <= |ops|
    ensures var g := RunTo(f, ops, k);
            Settled(g) && Sound(g) && SameBut(Contents(g), f[..INDEX], lo, hi)
  {
    hide Run, RunTo, TouchesOnly, Accepted, DecodeRecord;
    var g := RunTo(f, ops, k);
    RunWithin(f, ops, lo, hi, k);
    SameSlice(f, g, lo, hi, INDEX, INDEX + 8);
  }
}
