/**
  What the page directory and the chunk bitmaps of ext/OpenBSD_malloc_Linux.c say,
  between them, about which memory is handed out.
 */
module Blocks {

  import opened Chains
  import opened PageDirectory
  import opened Bitmap
  import opened ChunkPool

  /** A block in use: the bytes asked for and the bytes set aside. */
  datatype Req = Req(want: int, room: int)

  // ----- pointer arithmetic -----

  /** `x >> s` */
  function Shr(x: nat, s: nat): nat {
    if s == 0 then x else Shr(x / 2, s - 1)
  }

  /** `(x & ((1UL << s) - 1)) == 0` */
  predicate LowClear(x: nat, s: nat) {
    s == 0 || (x % 2 == 0 && LowClear(x / 2, s - 1))
  }

  lemma {:induction false} ShiftBack(x: nat, s: nat)
    requires LowClear(x, s)
    ensures x == Shr(x, s) * Pow2(s)
  {
    if s > 0 {
      ShiftBack(x / 2, s - 1);
      assert x == 2 * (Shr(x, s) * Pow2(s - 1));
    }
  }

  lemma {:induction false} ShiftUp(k: nat, s: nat)
    ensures 0 <= k * Pow2(s) && LowClear(k * Pow2(s), s) && Shr(k * Pow2(s), s) == k
  {
    if s > 0 {
      ShiftUp(k, s - 1);
      assert k * Pow2(s) == 2 * (k * Pow2(s - 1));
    }
  }

  /** `(u_char *) bp->page + (k << bp->shift)` */
  function ChunkAddr(info: Pginfo, k: int): int {
    info.page * PAGE + k * Pow2(info.shift)
  }

  /** Multiples of `size` are at least `size` apart. */
  lemma Spaced(k: int, l: int, size: int)
    requires k < l && 0 < size
    ensures k * size + size <= l * size
  {
    assert (k + 1) * size <= l * size;
  }

  lemma InPageOffset(page: int, off: int)
    requires 0 <= page && 0 <= off < PAGE
    ensures (page * PAGE + off) / PAGE == page && (page * PAGE + off) % PAGE == off
  {
  }

  /** Chunk `k` ends inside its page. */
  lemma ChunkEnds(info: Pginfo, k: int)
    requires InfoOK(info) && 0 <= k < Slots(BucketOf(info))
    ensures 0 <= k * Pow2(info.shift) && k * Pow2(info.shift) + Pow2(info.shift) <= PAGE
  {
    var b := BucketOf(info);
    Layout(b);
    ShiftUp(k, info.shift);
    Spaced(k, Slots(b), Pow2(info.shift));
  }

  lemma InsidePage(info: Pginfo, k: int)
    requires InfoOK(info) && 0 <= k < Slots(BucketOf(info)) && 0 <= info.page
    ensures var ptr := ChunkAddr(info, k);
      0 <= ptr && ptr / PAGE == info.page && LowClear(ptr % PAGE, info.shift) && Shr(ptr % PAGE, info.shift) == k
      && ptr % PAGE + Pow2(info.shift) <= PAGE
  {
    ChunkEnds(info, k);
    ShiftUp(k, info.shift);
    InPageOffset(info.page, k * Pow2(info.shift));
  }

  // ----- which addresses are blocks -----

  /** `ptr` is an address that malloc returned and free has not taken back. */
  ghost predicate Block(pages: map<int, Entry>, infos: map<Addr, Pginfo>, ptr: int) {
    0 <= ptr && match EntryAt(pages, ptr / PAGE)
      case First => ptr % PAGE == 0
      case Chunk(a) => a in infos && LowClear(ptr % PAGE, infos[a].shift) && LiveChunk(infos[a], Shr(ptr % PAGE, infos[a].shift))
      case _ => false
  }

  /** The block at `ptr` has the room that `r` says, and it is enough. */
  ghost predicate Fits(pages: map<int, Entry>, infos: map<Addr, Pginfo>, ptr: int, r: Req) {
    0 <= r.want <= r.room && match EntryAt(pages, ptr / PAGE)
      case First => r.room % PAGE == 0 && RunIs(pages, ptr / PAGE, r.room / PAGE)
      case Chunk(a) => a in infos && r.room == Pow2(infos[a].shift) && r.want <= infos[a].size
      case _ => false
  }

  ghost predicate LiveOK(pages: map<int, Entry>, infos: map<Addr, Pginfo>, live: map<int, Req>) {
    && (forall ptr {:trigger ptr in live} {:trigger Block(pages, infos, ptr)} :: ptr in live <==> Block(pages, infos, ptr))
    && (forall ptr {:trigger live[ptr]} {:trigger ptr in live} :: ptr in live ==> Fits(pages, infos, ptr, live[ptr]))
  }

  /** A Follow entry continues a run. */
  ghost predicate NoOrphan(pages: map<int, Entry>) {
    forall p, q {:trigger EntryAt(pages, p), EntryAt(pages, q)} :: q == p + 1 && EntryAt(pages, q) == Follow ==>
      EntryAt(pages, p) == First || EntryAt(pages, p) == Follow
  }

  /** The owned pages are the ones whose entry is not NotMine. */
  ghost predicate PagesOK(v: View) {
    && v.pages.Keys <= v.owned && NoOrphan(v.pages)
    && (forall p {:trigger p in v.owned} {:trigger EntryAt(v.pages, p)} :: p in v.owned ==> RESERVED <= p && EntryAt(v.pages, p) != NotMine)
  }

  /** A record lives in its page, at the page's own address, or outside the arena, at a negative one. */
  ghost predicate Located(a: Addr, info: Pginfo) {
    if InPage(BucketOf(info)) then a == info.page else a < 0
  }

  ghost predicate ChunksOK(pages: map<int, Entry>, infos: map<Addr, Pginfo>) {
    && (forall a {:trigger infos[a]} {:trigger a in infos} :: a in infos ==>
          InfoOK(infos[a]) && EntryAt(pages, infos[a].page) == Chunk(a) && Located(a, infos[a]) && RESERVED <= infos[a].page)
    && (forall p {:trigger EntryAt(pages, p)} :: EntryAt(pages, p).Chunk? ==>
          EntryAt(pages, p).info in infos && infos[EntryAt(pages, p).info].page == p)
  }

  ghost predicate Consistent(v: View, infos: map<Addr, Pginfo>, live: map<int, Req>) {
    (PagesOK(v) && ChunksOK(v.pages, infos) && LiveOK(v.pages, infos, live)) == true
  }

  // ----- safety -----

  /** Distinct blocks do not overlap. */
  lemma Disjoint(v: View, infos: map<Addr, Pginfo>, live: map<int, Req>, x: int, y: int)
    requires Consistent(v, infos, live) && x in live && y in live && x < y
    ensures x + live[x].room <= y
  {
    var p, q := x / PAGE, y / PAGE;
    assert Fits(v.pages, infos, x, live[x]) && Fits(v.pages, infos, y, live[y]) && Block(v.pages, infos, x) && Block(v.pages, infos, y);
    if EntryAt(v.pages, p) == First {
      RunsApart(v.pages, p, live[x].room / PAGE, q);
    } else if p == q {
      ChunksApart(infos[EntryAt(v.pages, p).info], x, y);
    } else {
      ChunkInside(infos[EntryAt(v.pages, p).info], x);
    }
  }

  lemma RunsApart(pages: map<int, Entry>, s: int, n: int, q: int)
    requires RunIs(pages, s, n) && s < q && (EntryAt(pages, q) == First || EntryAt(pages, q).Chunk?)
    ensures s + n <= q
  {
    assert EntryAt(pages, q) != Follow;
  }

  lemma ChunkInside(info: Pginfo, x: int)
    requires InfoOK(info) && 0 <= x && LowClear(x % PAGE, info.shift) && Shr(x % PAGE, info.shift) < Slots(BucketOf(info))
    ensures x % PAGE + Pow2(info.shift) <= PAGE
  {
    ShiftBack(x % PAGE, info.shift);
    ChunkEnds(info, Shr(x % PAGE, info.shift));
  }

  lemma ChunksApart(info: Pginfo, x: int, y: int)
    requires 0 <= x < y && x / PAGE == y / PAGE && LowClear(x % PAGE, info.shift) && LowClear(y % PAGE, info.shift)
    ensures x + Pow2(info.shift) <= y
  {
    var k, l, size := Shr(x % PAGE, info.shift), Shr(y % PAGE, info.shift), Pow2(info.shift);
    ShiftBack(x % PAGE, info.shift);
    ShiftBack(y % PAGE, info.shift);
    if k < l {
      Spaced(k, l, size);
    } else if l < k {
      Spaced(l, k, size);
    }
  }

  // ----- what each kind of step does to the blocks -----

  /** Pages that may be handed out: on the free list, or fresh from mmap. */
  ghost predicate Unused(pages: map<int, Entry>, a: int, b: int) {
    forall p {:trigger EntryAt(pages, p)} :: a <= p < b ==> EntryAt(pages, p) == Free || EntryAt(pages, p) == NotMine
  }

  lemma RunMarked(pages: map<int, Entry>, pages': map<int, Entry>, a: int, b: int)
    requires NoOrphan(pages) && Unused(pages, a, b) && a < b && Repainted(pages, pages', a, b, First, Follow)
    ensures NoOrphan(pages') && RunIs(pages', a, b - a)
    ensures forall s, n {:trigger RunIs(pages, s, n)} :: RunIs(pages, s, n) ==> RunIs(pages', s, n)
  {
    assert EntryAt(pages', b) != Follow by {
      assert EntryAt(pages, b - 1) != First;
    }
    forall s, n | RunIs(pages, s, n) ensures RunIs(pages', s, n) {
      RunKept(pages, pages', a, b, s, n);
    }
  }

  lemma RunKept(pages: map<int, Entry>, pages': map<int, Entry>, a: int, b: int, s: int, n: int)
    requires RunIs(pages, s, n) && Unused(pages, a, b) && a < b && Repainted(pages, pages', a, b, First, Follow)
    requires EntryAt(pages', b) != Follow
    ensures RunIs(pages', s, n)
  {
    var e := s + n;
    assert EntryAt(pages, e) != Follow && EntryAt(pages, s) == First;
    assert EntryAt(pages, e - 1) == if n == 1 then First else Follow;
    forall p | s < p < e ensures EntryAt(pages', p) == Follow {
      assert EntryAt(pages, p) == Follow;
    }
    assert EntryAt(pages', e) != Follow && EntryAt(pages', s) == First;
  }

  /** Handing out [a, a + n): the run becomes the block at its first page. */
  lemma Marked(v: View, v': View, infos: map<Addr, Pginfo>, live: map<int, Req>, a: int, b: int, want: int, room: int)
    requires Consistent(v, infos, live) && RESERVED <= a < b && Unused(v.pages, a, b)
    requires Repainted(v.pages, v'.pages, a, b, First, Follow) && v'.owned == v.owned + Interval(a, b) && v'.pages.Keys <= v'.owned
    requires 0 <= want <= room == (b - a) * PAGE
    ensures a * PAGE !in live && Consistent(v', infos, live[a * PAGE := Req(want, room)])
  {
    RunMarked(v.pages, v'.pages, a, b);
    assert EntryAt(v.pages, a) != First && EntryAt(v'.pages, a) == First;
    var ptr := a * PAGE;
    assert ptr / PAGE == a && ptr % PAGE == 0;
    assert !Block(v.pages, infos, ptr);
    MarkedLive(v.pages, v'.pages, infos, live, a, b, want, room);
    assert PagesOK(v');
    MarkedChunks(v.pages, v'.pages, infos, a, b);
  }

  predicate SameIfChunk(e: Entry, e': Entry) {
    e.Chunk? || e'.Chunk? ==> e == e'
  }

  /** Changes among the entries that are not pages of chunks leave those alone. */
  lemma ChunksSame(pages: map<int, Entry>, pages': map<int, Entry>, infos: map<Addr, Pginfo>)
    requires ChunksOK(pages, infos) && forall p {:trigger EntryAt(pages, p)} {:trigger EntryAt(pages', p)} :: SameIfChunk(EntryAt(pages, p), EntryAt(pages', p))
    ensures ChunksOK(pages', infos)
  {
  }

  lemma MarkedChunks(pages: map<int, Entry>, pages': map<int, Entry>, infos: map<Addr, Pginfo>, a: int, b: int)
    requires ChunksOK(pages, infos) && Unused(pages, a, b) && Repainted(pages, pages', a, b, First, Follow)
    ensures ChunksOK(pages', infos)
  {
    forall p ensures SameIfChunk(EntryAt(pages, p), EntryAt(pages', p)) {}
    ChunksSame(pages, pages', infos);
  }

  lemma MarkedLive(pages: map<int, Entry>, pages': map<int, Entry>, infos: map<Addr, Pginfo>, live: map<int, Req>, a: int, b: int, want: int, room: int)
    requires LiveOK(pages, infos, live) && 0 <= a < b && Unused(pages, a, b) && Repainted(pages, pages', a, b, First, Follow)
    requires RunIs(pages', a, b - a) && 0 <= want <= room == (b - a) * PAGE
    requires forall s, n {:trigger RunIs(pages, s, n)} :: RunIs(pages, s, n) ==> RunIs(pages', s, n)
    ensures LiveOK(pages', infos, live[a * PAGE := Req(want, room)])
  {
    var ptr, live' := a * PAGE, live[a * PAGE := Req(want, room)];
    forall x ensures x in live' <==> Block(pages', infos, x) {
      assert x in live <==> Block(pages, infos, x);
      MarkedBlock(pages, pages', infos, a, b, x);
    }
    forall x | x in live' ensures Fits(pages', infos, x, live'[x]) {
      if x != ptr {
        assert Fits(pages, infos, x, live[x]) && Block(pages, infos, x);
        MarkedFits(pages, pages', infos, a, b, x, live[x]);
      } else {
        assert ptr / PAGE == a && EntryAt(pages', a) == First && live'[x].room / PAGE == b - a;
      }
    }
  }

  lemma MarkedBlock(pages: map<int, Entry>, pages': map<int, Entry>, infos: map<Addr, Pginfo>, a: int, b: int, x: int)
    requires 0 <= a < b && Unused(pages, a, b) && Repainted(pages, pages', a, b, First, Follow)
    ensures Block(pages', infos, x) <==> x == a * PAGE || Block(pages, infos, x)
  {
    var p := x / PAGE;
    var e, e' := EntryAt(pages, p), EntryAt(pages', p);
    assert x == a * PAGE ==> p == a && x % PAGE == 0;
  }

  lemma MarkedFits(pages: map<int, Entry>, pages': map<int, Entry>, infos: map<Addr, Pginfo>, a: int, b: int, x: int, r: Req)
    requires Unused(pages, a, b) && Repainted(pages, pages', a, b, First, Follow)
    requires forall s, n {:trigger RunIs(pages, s, n)} :: RunIs(pages, s, n) ==> RunIs(pages', s, n)
    requires Fits(pages, infos, x, r)
    ensures Fits(pages', infos, x, r)
  {
    var p := x / PAGE;
    var e, e' := EntryAt(pages, p), EntryAt(pages', p);
  }

  /** Marking a run Free again. */
  lemma ReleasedBlock(v: View, v': View, infos: map<Addr, Pginfo>, live: map<int, Req>, a: int, b: int)
    requires Consistent(v, infos, live) && a * PAGE in live && EntryAt(v.pages, a) == First && live[a * PAGE].room == (b - a) * PAGE
    requires Repainted(v.pages, v'.pages, a, b, Free, Free) && v'.owned == v.owned && v'.pages.Keys <= v'.owned
    ensures RunIs(v.pages, a, b - a) && Consistent(v', infos, live - {a * PAGE})
  {
    RunOf(v.pages, infos, live, a, b);
    ReleasedPages(v, v', a, b);
    ReleasedChunks(v.pages, v'.pages, infos, a, b);
    ReleasedLive(v.pages, v'.pages, infos, live, a, b);
  }

  lemma RunOf(pages: map<int, Entry>, infos: map<Addr, Pginfo>, live: map<int, Req>, a: int, b: int)
    requires LiveOK(pages, infos, live) && a * PAGE in live && EntryAt(pages, a) == First && live[a * PAGE].room == (b - a) * PAGE
    ensures RunIs(pages, a, b - a)
  {
    var ptr := a * PAGE;
    assert ptr / PAGE == a && Fits(pages, infos, ptr, live[ptr]);
  }

  lemma ReleasedPages(v: View, v': View, a: int, b: int)
    requires PagesOK(v) && RunIs(v.pages, a, b - a) && Repainted(v.pages, v'.pages, a, b, Free, Free)
    requires v'.owned == v.owned && v'.pages.Keys <= v'.owned
    ensures PagesOK(v')
  {
    assert EntryAt(v.pages, b) != Follow && EntryAt(v'.pages, b) != Follow;
  }

  lemma ReleasedChunks(pages: map<int, Entry>, pages': map<int, Entry>, infos: map<Addr, Pginfo>, a: int, b: int)
    requires ChunksOK(pages, infos) && RunIs(pages, a, b - a) && Repainted(pages, pages', a, b, Free, Free)
    ensures ChunksOK(pages', infos)
  {
    forall p ensures SameIfChunk(EntryAt(pages, p), EntryAt(pages', p)) {}
    ChunksSame(pages, pages', infos);
  }

  lemma ReleasedLive(pages: map<int, Entry>, pages': map<int, Entry>, infos: map<Addr, Pginfo>, live: map<int, Req>, a: int, b: int)
    requires LiveOK(pages, infos, live) && RunIs(pages, a, b - a) && Repainted(pages, pages', a, b, Free, Free)
    ensures LiveOK(pages', infos, live - {a * PAGE})
  {
    var live' := live - {a * PAGE};
    forall x ensures x in live' <==> Block(pages', infos, x) {
      assert x in live <==> Block(pages, infos, x);
      ReleasedAt(pages, pages', infos, a, b, x);
    }
    forall x | x in live' ensures Fits(pages', infos, x, live'[x]) {
      assert Fits(pages, infos, x, live[x]) && Block(pages, infos, x);
      ReleasedFits(pages, pages', infos, a, b, x, live[x]);
    }
  }

  lemma ReleasedAt(pages: map<int, Entry>, pages': map<int, Entry>, infos: map<Addr, Pginfo>, a: int, b: int, x: int)
    requires RunIs(pages, a, b - a) && Repainted(pages, pages', a, b, Free, Free)
    ensures Block(pages', infos, x) <==> x != a * PAGE && Block(pages, infos, x)
  {
    var p := x / PAGE;
    var e, e' := EntryAt(pages, p), EntryAt(pages', p);
    assert x == a * PAGE ==> p == a;
    assert p == a && x % PAGE == 0 ==> x == a * PAGE;
  }

  lemma ReleasedFits(pages: map<int, Entry>, pages': map<int, Entry>, infos: map<Addr, Pginfo>, a: int, b: int, x: int, r: Req)
    requires RunIs(pages, a, b - a) && Repainted(pages, pages', a, b, Free, Free)
    requires Fits(pages, infos, x, r) && Block(pages, infos, x) && x != a * PAGE
    ensures Fits(pages', infos, x, r)
  {
    var p := x / PAGE;
    var e, e' := EntryAt(pages, p), EntryAt(pages', p);
    assert x == p * PAGE + x % PAGE;
    if e == First {
      RunFreed(pages, pages', a, b, p, r.room / PAGE);
    }
  }

  lemma RunFreed(pages: map<int, Entry>, pages': map<int, Entry>, a: int, b: int, s: int, n: int)
    requires RunIs(pages, s, n) && RunIs(pages, a, b - a) && s != a && Repainted(pages, pages', a, b, Free, Free)
    ensures RunIs(pages', s, n)
  {
    if s < a {
      RunsApart(pages, s, n, a);
    } else {
      RunsApart(pages, a, b - a, s);
    }
    var e := s + n;
    assert EntryAt(pages, e) != Follow;
    assert EntryAt(pages', e) != Follow;
  }

  /** Giving Free pages back to the system. */
  lemma TrimmedPages(v: View, v': View, infos: map<Addr, Pginfo>, live: map<int, Req>, a: int, b: int)
    requires Consistent(v, infos, live) && Unused(v.pages, a, b) && 0 <= a
    requires v'.pages == v.pages - Interval(a, b) && v'.owned == v.owned - Interval(a, b)
    ensures Consistent(v', infos, live)
  {
    TrimmedMap(v.pages, a, b);
    TrimmedRuns(v.pages, v'.pages, a, b);
    TrimmedOwned(v, v', a, b);
    TrimmedChunks(v.pages, v'.pages, infos, a, b);
    TrimmedLive(v.pages, v'.pages, infos, live, a, b);
  }

  lemma TrimmedOwned(v: View, v': View, a: int, b: int)
    requires PagesOK(v) && NoOrphan(v'.pages) && Repainted(v.pages, v'.pages, a, b, NotMine, NotMine) && 0 <= a
    requires v'.pages == v.pages - Interval(a, b) && v'.owned == v.owned - Interval(a, b)
    ensures PagesOK(v')
  {
    forall p | p in v'.owned ensures RESERVED <= p && EntryAt(v'.pages, p) != NotMine {
      assert p in v.owned;
    }
  }

  lemma TrimmedChunks(pages: map<int, Entry>, pages': map<int, Entry>, infos: map<Addr, Pginfo>, a: int, b: int)
    requires ChunksOK(pages, infos) && Unused(pages, a, b) && Repainted(pages, pages', a, b, NotMine, NotMine)
    ensures ChunksOK(pages', infos)
  {
    forall p ensures SameIfChunk(EntryAt(pages, p), EntryAt(pages', p)) {}
    ChunksSame(pages, pages', infos);
  }

  lemma TrimmedLive(pages: map<int, Entry>, pages': map<int, Entry>, infos: map<Addr, Pginfo>, live: map<int, Req>, a: int, b: int)
    requires LiveOK(pages, infos, live) && Unused(pages, a, b) && Repainted(pages, pages', a, b, NotMine, NotMine)
    requires forall s, n {:trigger RunIs(pages, s, n)} :: RunIs(pages, s, n) ==> RunIs(pages', s, n)
    ensures LiveOK(pages', infos, live)
  {
    forall x ensures x in live <==> Block(pages', infos, x) {
      assert x in live <==> Block(pages, infos, x);
      var e, e' := EntryAt(pages, x / PAGE), EntryAt(pages', x / PAGE);
    }
    forall x | x in live ensures Fits(pages', infos, x, live[x]) {
      assert Fits(pages, infos, x, live[x]);
      TrimmedFits(pages, pages', infos, a, b, x, live[x]);
    }
  }

  lemma TrimmedFits(pages: map<int, Entry>, pages': map<int, Entry>, infos: map<Addr, Pginfo>, a: int, b: int, x: int, r: Req)
    requires Unused(pages, a, b) && Repainted(pages, pages', a, b, NotMine, NotMine) && Fits(pages, infos, x, r)
    requires forall s, n {:trigger RunIs(pages, s, n)} :: RunIs(pages, s, n) ==> RunIs(pages', s, n)
    ensures Fits(pages', infos, x, r)
  {
    var e, e' := EntryAt(pages, x / PAGE), EntryAt(pages', x / PAGE);
  }

  lemma TrimmedMap(pages: map<int, Entry>, a: int, b: int)
    requires 0 <= a
    ensures Repainted(pages, pages - Interval(a, b), a, b, NotMine, NotMine)
  {
  }

  lemma TrimmedRuns(pages: map<int, Entry>, pages': map<int, Entry>, a: int, b: int)
    requires NoOrphan(pages) && Unused(pages, a, b) && Repainted(pages, pages', a, b, NotMine, NotMine)
    ensures NoOrphan(pages')
    ensures forall s, n {:trigger RunIs(pages, s, n)} :: RunIs(pages, s, n) ==> RunIs(pages', s, n)
  {
    forall p, q | q == p + 1 && EntryAt(pages', q) == Follow ensures EntryAt(pages', p) == First || EntryAt(pages', p) == Follow {
      assert EntryAt(pages, q) == Follow;
      assert EntryAt(pages, p) == First || EntryAt(pages, p) == Follow;
    }
    forall s, n | RunIs(pages, s, n) ensures RunIs(pages', s, n) {
      var e := s + n;
      assert EntryAt(pages, e) != Follow && EntryAt(pages, s) == First;
      forall p | s < p < e ensures EntryAt(pages', p) == Follow {
        assert EntryAt(pages, p) == Follow;
      }
      assert EntryAt(pages', e) != Follow && EntryAt(pages', s) == First;
    }
  }

  /** One entry changes, from and to something other than Follow. */
  ghost predicate EntryPut(pages: map<int, Entry>, pages': map<int, Entry>, p: int, e: Entry) {
    forall q {:trigger EntryAt(pages', q)} {:trigger EntryAt(pages, q)} :: EntryAt(pages', q) == if q == p then e else EntryAt(pages, q)
  }

  lemma EntryPutMap(pages: map<int, Entry>, p: int, e: Entry)
    requires 0 <= p
    ensures EntryPut(pages, pages[p := e], p, e)
  {
  }

  lemma PagesPut(v: View, v': View, p: int, e: Entry)
    requires PagesOK(v) && EntryPut(v.pages, v'.pages, p, e) && v' == v.(pages := v.pages[p := e]) && p in v.owned
    requires e == First || (e.Chunk? && EntryAt(v.pages, p + 1) != Follow)
    ensures PagesOK(v')
  {
    var next := p + 1;
    assert EntryAt(v'.pages, next) == EntryAt(v.pages, next);
  }

  /** One page of a single-page run becomes a page of chunks. */
  lemma BecomesChunks(v: View, v': View, infos: map<Addr, Pginfo>, live: map<int, Req>, p: int, a: Addr, info: Pginfo)
    requires Consistent(v, infos, live) && EntryAt(v.pages, p) == First && p * PAGE in live && live[p * PAGE].room == PAGE && p in v.owned
    requires a !in infos && InfoOK(info) && info.page == p && Located(a, info) && RESERVED <= p && forall k :: !LiveChunk(info, k)
    requires v' == v.(pages := v.pages[p := Chunk(a)])
    ensures Consistent(v', infos[a := info], live - {p * PAGE})
  {
    RunOf(v.pages, infos, live, p, p + 1);
    EntryPutMap(v.pages, p, Chunk(a));
    PagesPut(v, v', p, Chunk(a));
    ChunksAdded(v.pages, v'.pages, infos, p, a, info);
    LiveCarved(v.pages, v'.pages, infos, live, p, a, info);
  }

  lemma ChunksAdded(pages: map<int, Entry>, pages': map<int, Entry>, infos: map<Addr, Pginfo>, p: int, a: Addr, info: Pginfo)
    requires ChunksOK(pages, infos) && EntryAt(pages, p) == First && EntryPut(pages, pages', p, Chunk(a))
    requires a !in infos && InfoOK(info) && info.page == p && Located(a, info) && RESERVED <= p
    ensures ChunksOK(pages', infos[a := info])
  {
  }

  lemma LiveCarved(pages: map<int, Entry>, pages': map<int, Entry>, infos: map<Addr, Pginfo>, live: map<int, Req>, p: int, a: Addr, info: Pginfo)
    requires ChunksOK(pages, infos) && LiveOK(pages, infos, live) && EntryAt(pages, p) == First && EntryPut(pages, pages', p, Chunk(a))
    requires a !in infos && forall k :: !LiveChunk(info, k)
    ensures LiveOK(pages', infos[a := info], live - {p * PAGE})
  {
    var infos', live' := infos[a := info], live - {p * PAGE};
    forall x ensures x in live' <==> Block(pages', infos', x) {
      assert x in live <==> Block(pages, infos, x);
      ChunksBlock(pages, pages', infos, p, a, info, x);
    }
    forall x | x in live' ensures Fits(pages', infos', x, live'[x]) {
      assert Fits(pages, infos, x, live[x]) && Block(pages, infos, x);
      ChunksFits(pages, pages', infos, p, a, info, x, live[x]);
    }
  }

  lemma ChunksBlock(pages: map<int, Entry>, pages': map<int, Entry>, infos: map<Addr, Pginfo>, p: int, a: Addr, info: Pginfo, x: int)
    requires ChunksOK(pages, infos) && a !in infos && EntryAt(pages, p) == First && EntryPut(pages, pages', p, Chunk(a))
    requires forall k :: !LiveChunk(info, k)
    ensures Block(pages', infos[a := info], x) <==> x != p * PAGE && Block(pages, infos, x)
  {
    var q := x / PAGE;
    var e, e' := EntryAt(pages, q), EntryAt(pages', q);
    assert x == p * PAGE ==> q == p;
    assert q == p && x % PAGE == 0 ==> x == p * PAGE;
  }

  lemma ChunksFits(pages: map<int, Entry>, pages': map<int, Entry>, infos: map<Addr, Pginfo>, p: int, a: Addr, info: Pginfo, x: int, r: Req)
    requires ChunksOK(pages, infos) && a !in infos && EntryAt(pages, p) == First && EntryPut(pages, pages', p, Chunk(a))
    requires Fits(pages, infos, x, r) && Block(pages, infos, x) && x != p * PAGE
    ensures Fits(pages', infos[a := info], x, r)
  {
    var q := x / PAGE;
    var e, e' := EntryAt(pages, q), EntryAt(pages', q);
    if e == First {
      assert EntryAt(pages', p) == Chunk(a);
      RunBeside(pages, pages', q, r.room / PAGE, p);
    }
  }

  /** A run is untouched by what happens to the first page of another one. */
  lemma RunBeside(pages: map<int, Entry>, pages': map<int, Entry>, s: int, n: int, p: int)
    requires RunIs(pages, s, n) && s != p && EntryAt(pages, p) != Follow && EntryAt(pages', p) != Follow
    requires forall q {:trigger EntryAt(pages', q)} :: q != p ==> EntryAt(pages', q) == EntryAt(pages, q)
    ensures RunIs(pages', s, n)
  {
    var e := s + n;
    assert EntryAt(pages, e) != Follow && EntryAt(pages', e) != Follow;
  }

  /** A page whose chunks have all come home becomes a single-page run again. */
  lemma BecomesRun(v: View, v': View, infos: map<Addr, Pginfo>, live: map<int, Req>, p: int, a: Addr)
    requires Consistent(v, infos, live) && EntryAt(v.pages, p) == Chunk(a) && a in infos && forall k :: !LiveChunk(infos[a], k)
    requires v' == v.(pages := v.pages[p := First]) && RESERVED <= p && p in v.owned
    ensures Consistent(v', infos - {a}, live[p * PAGE := Req(PAGE, PAGE)])
  {
    EntryPutMap(v.pages, p, First);
    PagesPut(v, v', p, First);
    ChunksRemoved(v.pages, v'.pages, infos, p, a);
    ChunkThenFollow(v.pages, p);
    LiveRejoined(v.pages, v'.pages, infos, live, p, a);
  }

  lemma ChunkThenFollow(pages: map<int, Entry>, p: int)
    requires NoOrphan(pages) && EntryAt(pages, p).Chunk?
    ensures EntryAt(pages, p + 1) != Follow
  {
  }

  lemma ChunksRemoved(pages: map<int, Entry>, pages': map<int, Entry>, infos: map<Addr, Pginfo>, p: int, a: Addr)
    requires ChunksOK(pages, infos) && EntryAt(pages, p) == Chunk(a) && EntryPut(pages, pages', p, First)
    ensures ChunksOK(pages', infos - {a})
  {
  }

  lemma LiveRejoined(pages: map<int, Entry>, pages': map<int, Entry>, infos: map<Addr, Pginfo>, live: map<int, Req>, p: int, a: Addr)
    requires ChunksOK(pages, infos) && LiveOK(pages, infos, live) && EntryAt(pages, p) == Chunk(a) && EntryPut(pages, pages', p, First)
    requires 0 <= p && EntryAt(pages, p + 1) != Follow && a in infos && forall k :: !LiveChunk(infos[a], k)
    ensures LiveOK(pages', infos - {a}, live[p * PAGE := Req(PAGE, PAGE)])
  {
    var infos', live' := infos - {a}, live[p * PAGE := Req(PAGE, PAGE)];
    forall x ensures x in live' <==> Block(pages', infos', x) {
      assert x in live <==> Block(pages, infos, x);
      RejoinedBlock(pages, pages', infos, p, a, x);
    }
    forall x | x in live' ensures Fits(pages', infos', x, live'[x]) {
      if x == p * PAGE {
        RejoinedRun(pages, pages', infos', p);
      } else {
        assert Fits(pages, infos, x, live[x]) && Block(pages, infos, x);
        RejoinedFits(pages, pages', infos, p, a, x, live[x]);
      }
    }
  }

  lemma RejoinedBlock(pages: map<int, Entry>, pages': map<int, Entry>, infos: map<Addr, Pginfo>, p: int, a: Addr, x: int)
    requires ChunksOK(pages, infos) && EntryAt(pages, p) == Chunk(a) && EntryPut(pages, pages', p, First)
    requires 0 <= p && a in infos && forall k :: !LiveChunk(infos[a], k)
    ensures Block(pages', infos - {a}, x) <==> x == p * PAGE || Block(pages, infos, x)
  {
    var q := x / PAGE;
    var e, e' := EntryAt(pages, q), EntryAt(pages', q);
    assert x == p * PAGE ==> q == p && x % PAGE == 0;
    assert q == p && x % PAGE == 0 ==> x == p * PAGE;
  }

  lemma RejoinedRun(pages: map<int, Entry>, pages': map<int, Entry>, infos: map<Addr, Pginfo>, p: int)
    requires EntryPut(pages, pages', p, First) && EntryAt(pages, p + 1) != Follow
    ensures Fits(pages', infos, p * PAGE, Req(PAGE, PAGE))
  {
    var x := p * PAGE;
    assert x / PAGE == p && EntryAt(pages', p + 1) != Follow && EntryAt(pages', p) == First;
  }

  lemma RejoinedFits(pages: map<int, Entry>, pages': map<int, Entry>, infos: map<Addr, Pginfo>, p: int, a: Addr, x: int, r: Req)
    requires ChunksOK(pages, infos) && EntryAt(pages, p) == Chunk(a) && EntryPut(pages, pages', p, First)
    requires a in infos && (forall k :: !LiveChunk(infos[a], k)) && Fits(pages, infos, x, r) && Block(pages, infos, x)
    ensures Fits(pages', infos - {a}, x, r)
  {
    var q := x / PAGE;
    var e, e' := EntryAt(pages, q), EntryAt(pages', q);
    if e == First {
      RunBeside(pages, pages', q, r.room / PAGE, p);
    }
  }

  /** A chunk is handed out, or comes home to a page that keeps others. */
  lemma ChunkMoved(v: View, infos: map<Addr, Pginfo>, live: map<int, Req>, a: Addr, info': Pginfo, k: int, live': map<int, Req>, want: int)
    requires Consistent(v, infos, live) && a in infos && InfoOK(info') && 0 <= k < Slots(BucketOf(infos[a]))
    requires info'.shift == infos[a].shift && info'.size == infos[a].size && info'.page == infos[a].page
    requires forall j {:trigger LiveChunk(info', j)} :: LiveChunk(info', j) <==> if j == k then !LiveChunk(infos[a], k) else LiveChunk(infos[a], j)
    requires 0 <= want <= infos[a].size
    requires live' == if LiveChunk(infos[a], k) then live - {ChunkAddr(infos[a], k)} else live[ChunkAddr(infos[a], k) := Req(want, Pow2(info'.shift))]
    ensures ChunkAddr(infos[a], k) in live <==> LiveChunk(infos[a], k)
    ensures Consistent(v, infos[a := info'], live')
  {
    var ptr, infos', info := ChunkAddr(infos[a], k), infos[a := info'], infos[a];
    InsidePage(info, k);
    assert EntryAt(v.pages, info.page) == Chunk(a);
    assert ptr in live <==> Block(v.pages, infos, ptr);
    ChunksReplaced(v.pages, infos, a, info');
    forall x ensures x in live' <==> Block(v.pages, infos', x) {
      ChunkBlock(v, infos, live, a, info', k, x);
    }
    SizesPositive(info);
    forall x | x in live' ensures Fits(v.pages, infos', x, live'[x]) {
      if x != ptr {
        assert Fits(v.pages, infos, x, live[x]);
        SameFits(v.pages, infos, a, info', x, live[x]);
      }
    }
  }

  lemma ChunksReplaced(pages: map<int, Entry>, infos: map<Addr, Pginfo>, a: Addr, info': Pginfo)
    requires ChunksOK(pages, infos) && a in infos && InfoOK(info')
    requires info'.shift == infos[a].shift && info'.size == infos[a].size && info'.page == infos[a].page
    ensures ChunksOK(pages, infos[a := info'])
  {
  }

  lemma SameFits(pages: map<int, Entry>, infos: map<Addr, Pginfo>, a: Addr, info': Pginfo, x: int, r: Req)
    requires Fits(pages, infos, x, r) && a in infos && info'.shift == infos[a].shift && info'.size == infos[a].size
    ensures Fits(pages, infos[a := info'], x, r)
  {
  }

  lemma SizesPositive(info: Pginfo)
    requires InfoOK(info)
    ensures info.size <= Pow2(info.shift)
  {
  }

  lemma ChunkBlock(v: View, infos: map<Addr, Pginfo>, live: map<int, Req>, a: Addr, info': Pginfo, k: int, x: int)
    requires Consistent(v, infos, live) && a in infos && InfoOK(infos[a]) && 0 <= k < Slots(BucketOf(infos[a]))
    requires info'.shift == infos[a].shift && info'.page == infos[a].page
    requires forall j {:trigger LiveChunk(info', j)} :: LiveChunk(info', j) <==> if j == k then !LiveChunk(infos[a], k) else LiveChunk(infos[a], j)
    ensures Block(v.pages, infos[a := info'], x) <==> if x == ChunkAddr(infos[a], k) then !LiveChunk(infos[a], k) else x in live
  {
    var info := infos[a];
    InsidePage(info, k);
    assert EntryAt(v.pages, info.page) == Chunk(a);
    assert x in live <==> Block(v.pages, infos, x);
    if 0 <= x && EntryAt(v.pages, x / PAGE) == Chunk(a) && LowClear(x % PAGE, info.shift) && Shr(x % PAGE, info.shift) == k {
      ShiftBack(x % PAGE, info.shift);
      assert x == ChunkAddr(info, k);
    }
  }
}
