/** The streams of elementary operations that the external-memory layer issues,
    and what they leave on the chip, cut short or not. */
module Streams {
  import opened Bytes
  import opened NorFlash

  const CONFIG := 0x60_0000
  const INDEX := 0x7F_D000
  const JOURNAL := 0x7F_E000
  const UNKNOWN := 0xFFFF_FFFF

  // ---- one subsector --------------------------------------------------

  predicate AllErased(page: seq<byte>) {
    forall i | 0 <= i < |page| :: page[i] == 0xFF
  }

  /** Programming one page; nothing to do when it stays all ones. */
  function OnePageOps(a: nat, page: seq<byte>): seq<Op>
    requires a + |page| <= SIZE
  {
    if AllErased(page) then [] else ProgramOps(a, page)
  }

  /** Page `j` of a subsector's content. */
  function Page(c: seq<byte>, j: nat): (page: seq<byte>)
    requires |c| == SUBSECTOR && j < PAGES
    ensures |page| == PAGE
  {
    c[j * PAGE..j * PAGE + PAGE]
  }

  /** Programming the pages of a subsector from page `j` on. */
  function PageOps(base: nat, c: seq<byte>, j: nat): seq<Op>
    requires |c| == SUBSECTOR && base + SUBSECTOR <= SIZE && j <= PAGES
    decreases PAGES - j
  {
    if j == PAGES then [] else OnePageOps(base + j * PAGE, Page(c, j)) + PageOps(base, c, j + 1)
  }

  function SubsectorOps(base: nat, c: seq<byte>): seq<Op>
    requires |c| == SUBSECTOR && base + SUBSECTOR <= SIZE && base % SUBSECTOR == 0
  {
    [Erase(base)] + PageOps(base, c, 0)
  }

  lemma OnePage(f: Image, a: nat, page: seq<byte>)
    requires a + |page| <= SIZE && f[a..a + |page|] == Blank(|page|)
    ensures Run(f, OnePageOps(a, page)) == Splice(f, a, page)
  {
    if AllErased(page) {
      assert page == Blank(|page|);
    } else {
      RunProgram(f, a, page);
      MaskedErased(f, a, page);
    }
  }

  lemma SpliceTwice(f: seq<byte>, a: nat, x: seq<byte>, y: seq<byte>)
    requires a + |x| + |y| <= |f|
    ensures Splice(Splice(f, a, x), a + |x|, y) == Splice(f, a, x + y)
  {
  }

  /** `f` after the first `t` bytes of `c` from `at` on have been stored. */
  function Filled(f: Image, base: nat, c: seq<byte>, at: nat, t: nat): Image
    requires |c| == SUBSECTOR && base + SUBSECTOR <= SIZE && at <= t <= SUBSECTOR
  {
    Splice(f, base + at, c[at..t])
  }

  lemma FilledTwice(f: Image, base: nat, c: seq<byte>, at: nat, mid: nat, t: nat)
    requires |c| == SUBSECTOR && base + SUBSECTOR <= SIZE && at <= mid <= t <= SUBSECTOR
    ensures Filled(Filled(f, base, c, at, mid), base, c, mid, t) == Filled(f, base, c, at, t)
  {
    SpliceTwice(f, base + at, c[at..mid], c[mid..t]);
    assert c[at..mid] + c[mid..t] == c[at..t];
  }

  predicate BlankFrom(f: Image, base: nat, at: nat)
    requires base + SUBSECTOR <= SIZE
  {
    forall i | base + at <= i < base + SUBSECTOR :: f[i] == 0xFF
  }

  lemma BlankPage(f: Image, base: nat, at: nat, n: nat)
    requires base + SUBSECTOR <= SIZE && BlankFrom(f, base, at) && at + n <= SUBSECTOR
    ensures f[base + at..base + at + n] == Blank(n)
  {
  }

  lemma BlankAfter(f: Image, base: nat, c: seq<byte>, at: nat, mid: nat)
    requires |c| == SUBSECTOR && base + SUBSECTOR <= SIZE && at <= mid <= SUBSECTOR && BlankFrom(f, base, at)
    ensures BlankFrom(Filled(f, base, c, at, mid), base, mid)
  {
  }

  lemma NoPages(f: Image, base: nat, c: seq<byte>)
    requires |c| == SUBSECTOR && base + SUBSECTOR <= SIZE
    ensures |PageOps(base, c, PAGES)| == 0
    ensures RunTo(f, PageOps(base, c, PAGES), 0) == Filled(f, base, c, SUBSECTOR, SUBSECTOR)
  {
    RunEnds(f, PageOps(base, c, PAGES));
  }

  lemma FilledPart(f: Image, base: nat, c: seq<byte>, j: nat, k: nat)
    requires |c| == SUBSECTOR && base + SUBSECTOR <= SIZE && j < PAGES && k <= PAGE
    ensures Splice(f, base + j * PAGE, Page(c, j)[..k]) == Filled(f, base, c, j * PAGE, j * PAGE + k)
  {
    assert Page(c, j)[..k] == c[j * PAGE..j * PAGE + k];
  }

  lemma PageOpsFirst(base: nat, c: seq<byte>, j: nat)
    requires |c| == SUBSECTOR && base + SUBSECTOR <= SIZE && j < PAGES
    ensures PageOps(base, c, j) == OnePageOps(base + j * PAGE, Page(c, j)) + PageOps(base, c, j + 1)
  {
  }

  /** A cut inside the first page, or after it. */
  lemma FirstPageCut(f: Image, base: nat, c: seq<byte>, j: nat, k: nat) returns (n: nat)
    requires |c| == SUBSECTOR && base + SUBSECTOR <= SIZE && j < PAGES
    requires BlankFrom(f, base, j * PAGE) && k <= |PageOps(base, c, j)|
    ensures n == (if AllErased(Page(c, j)) then 0 else PAGE)
    ensures |PageOps(base, c, j)| == n + |PageOps(base, c, j + 1)|
    ensures k < n ==> RunTo(f, PageOps(base, c, j), k) == Filled(f, base, c, j * PAGE, j * PAGE + k)
    ensures k >= n ==> RunTo(f, PageOps(base, c, j), k)
                       == RunTo(Filled(f, base, c, j * PAGE, j * PAGE + PAGE), PageOps(base, c, j + 1), k - n)
  {
    hide Run, RunTo, Apply, Splice, PageOps, Filled, Page;
    var page := Page(c, j);
    var first := OnePageOps(base + j * PAGE, page);
    n := |first|;
    PageOpsFirst(base, c, j);
    RunCut(f, first, PageOps(base, c, j + 1), k);
    BlankPage(f, base, j * PAGE, PAGE);
    if k < n {
      RunProgramCut(f, base + j * PAGE, page, k);
      FilledPart(f, base, c, j, k);
    } else {
      OnePage(f, base + j * PAGE, page);
      FilledPart(f, base, c, j, PAGE);
      assert page[..PAGE] == page;
    }
  }

  /** However many of the page operations were carried out, the subsector holds
      its new content up to some point and ones from there on. */
  lemma {:induction false} PageOpsCut(f: Image, base: nat, c: seq<byte>, j: nat, k: nat) returns (t: nat)
    requires |c| == SUBSECTOR && base + SUBSECTOR <= SIZE && j <= PAGES
    requires BlankFrom(f, base, j * PAGE) && k <= |PageOps(base, c, j)|
    ensures j * PAGE <= t <= SUBSECTOR && RunTo(f, PageOps(base, c, j), k) == Filled(f, base, c, j * PAGE, t)
    ensures k == |PageOps(base, c, j)| ==> t == SUBSECTOR
    ensures j < PAGES && !AllErased(Page(c, j)) ==> if k < PAGE then t == j * PAGE + k else t >= j * PAGE + PAGE
    decreases PAGES - j
  {
    hide Run, RunTo, Filled, BlankFrom, PageOps, AllErased, Page;
    var at := j * PAGE;
    if j == PAGES {
      t := SUBSECTOR;
      NoPages(f, base, c);
    } else {
      var n := FirstPageCut(f, base, c, j, k);
      if k < n {
        t := at + k;
      } else {
        BlankAfter(f, base, c, at, at + PAGE);
        t := PageOpsCut(Filled(f, base, c, at, at + PAGE), base, c, j + 1, k - n);
        FilledTwice(f, base, c, at, at + PAGE, t);
      }
    }
  }

  /** Power fails `k` operations into the rewriting of a subsector. */
  lemma SubsectorCut(f: Image, base: nat, c: seq<byte>, k: nat) returns (t: nat)
    requires |c| == SUBSECTOR && base + SUBSECTOR <= SIZE && base % SUBSECTOR == 0
    requires 0 < k <= |SubsectorOps(base, c)|
    ensures t <= SUBSECTOR && RunTo(f, SubsectorOps(base, c), k) == Splice(f, base, c[..t] + Blank(SUBSECTOR - t))
    ensures k == |SubsectorOps(base, c)| ==> t == SUBSECTOR
    ensures !AllErased(Page(c, 0)) ==> if k <= PAGE then t == k - 1 else t >= PAGE
  {
    hide Run, RunTo, Apply, Filled, AllErased, Page, Splice, PageOps, BlankFrom;
    var e := Apply(f, Erase(base));
    ErasedSubsector(f, base);
    t := PageOpsCut(e, base, c, 0, k - 1);
    FilledAfterErase(f, base, c, t);
    RunCut(f, [Erase(base)], PageOps(base, c, 0), k);
    RunOne(f, Erase(base));
  }

  lemma ErasedSubsector(f: Image, base: nat)
    requires base + SUBSECTOR <= SIZE && base % SUBSECTOR == 0
    ensures Apply(f, Erase(base)) == Splice(f, base, Blank(SUBSECTOR))
    ensures BlankFrom(Apply(f, Erase(base)), base, 0)
  {
  }

  lemma FilledAfterErase(f: Image, base: nat, c: seq<byte>, t: nat)
    requires |c| == SUBSECTOR && base + SUBSECTOR <= SIZE && t <= SUBSECTOR
    ensures Filled(Splice(f, base, Blank(SUBSECTOR)), base, c, 0, t) == Splice(f, base, c[..t] + Blank(SUBSECTOR - t))
  {
  }

  // ---- a run of subsectors --------------------------------------------

  /** How many subsectors a transfer touches, as the layer computes it. */
  function SubsectorCount(address: nat, size: nat): nat {
    (address + size) / SUBSECTOR - address / SUBSECTOR + if (address + size) % SUBSECTOR != 0 then 1 else 0
  }

  /** How many pages a transfer touches. */
  function PageCount(address: nat, size: nat): nat {
    (address + size) / PAGE - address / PAGE + if (address + size) % PAGE != 0 then 1 else 0
  }

  /** A range takes at most the two journal blocks exactly if it ends within two
      subsectors of where its first one begins; one subsector's worth always does. */
  lemma JournalCapacity(address: nat, size: nat)
    ensures SubsectorCount(address, size) <= 2 <==> address % SUBSECTOR + size <= 2 * SUBSECTOR
    ensures size <= SUBSECTOR ==> SubsectorCount(address, size) <= 2
  {
    var q, r := address / SUBSECTOR, address % SUBSECTOR;
    assert address == q * SUBSECTOR + r;
    assert (address + size) / SUBSECTOR == q + (r + size) / SUBSECTOR;
  }

  /** The counted subsectors are the fewest that cover the transfer. */
  lemma SubsectorsCover(address: nat, size: nat)
    ensures var n, begin := SubsectorCount(address, size), SubsectorBegin(address);
            && begin <= address && address + size <= begin + n * SUBSECTOR
            && (size > 0 ==> n > 0 && begin + (n - 1) * SUBSECTOR < address + size)
            && (size <= SUBSECTOR ==> n <= 2)
            && (address + size <= INDEX ==> begin + n * SUBSECTOR <= INDEX)
            && (address + size <= SIZE ==> begin + n * SUBSECTOR <= SIZE)
  {
    var q, e := address / SUBSECTOR, (address + size) / SUBSECTOR;
    assert q * SUBSECTOR <= address < q * SUBSECTOR + SUBSECTOR;
    assert e * SUBSECTOR <= address + size < e * SUBSECTOR + SUBSECTOR;
  }

  /** Rewrites `n` subsectors from `dst` on with what `h` holds from `src` on. */
  function CopyOps(h: Image, src: nat, dst: nat, n: nat): seq<Op>
    requires src + n * SUBSECTOR <= SIZE && dst + n * SUBSECTOR <= SIZE && dst % SUBSECTOR == 0
    decreases n
  {
    if n == 0 then [] else CopyOps(h, src, dst, n - 1) + SubsectorOps(dst + (n - 1) * SUBSECTOR, Block(h, src, n - 1))
  }

  /** Subsector-sized block `i` of `h`, counting from address `src`. */
  function Block(h: Image, src: nat, i: nat): (b: seq<byte>)
    requires src + i * SUBSECTOR + SUBSECTOR <= SIZE
    ensures |b| == SUBSECTOR
  {
    h[src + i * SUBSECTOR..src + i * SUBSECTOR + SUBSECTOR]
  }

  lemma CopyNext(h: Image, src: nat, dst: nat, n: nat)
    requires src + n * SUBSECTOR + SUBSECTOR <= SIZE && dst + n * SUBSECTOR + SUBSECTOR <= SIZE && dst % SUBSECTOR == 0
    ensures CopyOps(h, src, dst, n + 1) == CopyOps(h, src, dst, n) + SubsectorOps(dst + n * SUBSECTOR, Block(h, src, n))
    ensures CopyOps(h, src, dst, 0) == []
  {
  }

  lemma {:induction false} PageOpsTouch(base: nat, c: seq<byte>, j: nat)
    requires |c| == SUBSECTOR && base + SUBSECTOR <= SIZE && j <= PAGES
    ensures TouchesOnly(PageOps(base, c, j), base, base + SUBSECTOR)
    decreases PAGES - j
  {
    if j < PAGES {
      PageOpsTouch(base, c, j + 1);
      assert TouchesOnly(OnePageOps(base + j * PAGE, Page(c, j)), base, base + SUBSECTOR);
    }
  }

  lemma SubsectorTouches(base: nat, c: seq<byte>)
    requires |c| == SUBSECTOR && base + SUBSECTOR <= SIZE && base % SUBSECTOR == 0
    ensures TouchesOnly(SubsectorOps(base, c), base, base + SUBSECTOR)
  {
    PageOpsTouch(base, c, 0);
  }

  lemma {:induction false} CopyTouches(h: Image, src: nat, dst: nat, n: nat)
    requires src + n * SUBSECTOR <= SIZE && dst + n * SUBSECTOR <= SIZE && dst % SUBSECTOR == 0
    ensures TouchesOnly(CopyOps(h, src, dst, n), dst, dst + n * SUBSECTOR)
    decreases n
  {
    hide TouchesOnly, SubsectorOps, Block;
    if n == 0 {
      TouchesNothing(dst, dst);
    } else {
      var base := dst + (n - 1) * SUBSECTOR;
      CopyTouches(h, src, dst, n - 1);
      SubsectorTouches(base, Block(h, src, n - 1));
      TouchesBoth(CopyOps(h, src, dst, n - 1), dst, base, SubsectorOps(base, Block(h, src, n - 1)), base, base + SUBSECTOR);
    }
  }

  lemma SubsectorDone(f: Image, base: nat, c: seq<byte>)
    requires |c| == SUBSECTOR && base + SUBSECTOR <= SIZE && base % SUBSECTOR == 0
    ensures Run(f, SubsectorOps(base, c)) == Splice(f, base, c)
  {
    hide Run, RunTo, Splice, PageOps, AllErased, Page;
    var k := |SubsectorOps(base, c)|;
    var t := SubsectorCut(f, base, c, k);
    RunEnds(f, SubsectorOps(base, c));
    assert c[..t] + Blank(SUBSECTOR - t) == c;
  }

  /** Power fails anywhere in a copy: nothing outside its destination changed. */
  lemma CopyCut(f: Image, h: Image, src: nat, dst: nat, n: nat, k: nat)
    requires src + n * SUBSECTOR <= SIZE && dst + n * SUBSECTOR <= SIZE && dst % SUBSECTOR == 0
    requires k <= |CopyOps(h, src, dst, n)|
    ensures SameOutside(f, RunTo(f, CopyOps(h, src, dst, n), k), dst, dst + n * SUBSECTOR)
  {
    hide RunTo, CopyOps, SameOutside, TouchesOnly;
    CopyTouches(h, src, dst, n);
    RunWithin(f, CopyOps(h, src, dst, n), dst, dst + n * SUBSECTOR, k);
  }

  lemma CopyEmpty(f: Image, h: Image, src: nat, dst: nat)
    requires src <= SIZE && dst <= SIZE && dst % SUBSECTOR == 0
    ensures Run(f, CopyOps(h, src, dst, 0)) == Splice(f, dst, h[src..src])
  {
    SpliceNothing(f, dst);
    assert h[src..src] == [];
  }

  /** A completed copy. */
  lemma {:induction false} CopyDone(f: Image, h: Image, src: nat, dst: nat, n: nat)
    requires src + n * SUBSECTOR <= SIZE && dst + n * SUBSECTOR <= SIZE && dst % SUBSECTOR == 0
    ensures Run(f, CopyOps(h, src, dst, n)) == Splice(f, dst, h[src..src + n * SUBSECTOR])
    decreases n
  {
    hide Run, RunTo, SubsectorOps, Splice;
    if n == 0 {
      CopyEmpty(f, h, src, dst);
    } else {
      var before := CopyOps(h, src, dst, n - 1);
      var base := dst + (n - 1) * SUBSECTOR;
      var done := h[src..src + (n - 1) * SUBSECTOR];
      RunConcat(f, before, SubsectorOps(base, Block(h, src, n - 1)));
      CopyDone(f, h, src, dst, n - 1);
      SubsectorDone(Run(f, before), base, Block(h, src, n - 1));
      SpliceTwice(f, dst, done, Block(h, src, n - 1));
      assert done + Block(h, src, n - 1) == h[src..src + n * SUBSECTOR];
    }
  }

  lemma SpliceNothing(f: seq<byte>, a: nat)
    requires a <= |f|
    ensures Splice(f, a, []) == f
  {
  }
}
