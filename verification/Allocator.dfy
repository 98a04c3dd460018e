/**
  The allocator of ext/OpenBSD_malloc_Linux.c as a whole: page runs, the free list,
  and pages of chunks, over one page directory.
 */
module Allocator {

  import opened Chains
  import opened PageDirectory
  import opened FreeList
  import opened Bitmap
  import opened ChunkPool
  import opened Blocks

  /** The global state: page_dir with its cached directories, free_list, px, the pginfo records, and malloc_cache in pages. */
  datatype Heap = Heap(dirs: Dirs, holders: Holders, px: Addr, pool: Pool, cache: int)

  /** What the state stands for, the blocks in use, and the pages lost because there was no holder for them. */
  datatype Shadow = Shadow(v: View, order: seq<Addr>, runs: seq<Run>, q: Queues, live: map<int, Req>, lost: set<int>)

  /** Every page on the free list is marked Free, and every entry knows the directory of its first page. */
  ghost predicate Stocked(mem: Memory, pages: map<int, Entry>, runs: seq<Run>) {
    ( && (forall p {:trigger InRuns(runs, p)} :: InRuns(runs, p) ==> EntryAt(pages, p) == Free)
      && (forall a, d {:trigger Starts(runs, a, d)} :: Starts(runs, a, d) ==> d in mem && PdIdx(mem[d].dirnum) == PiIdx(a))) == true
  }

  /** Every page marked Free is on the free list, unless it was lost. */
  ghost predicate Accounted(pages: map<int, Entry>, runs: seq<Run>, lost: set<int>) {
    forall p {:trigger EntryAt(pages, p)} :: EntryAt(pages, p) == Free ==> InRuns(runs, p) || p in lost
  }

  /** The free list, the spare holder, and the limit on what is cached. */
  ghost predicate FreeOK(h: Holders, px: Addr, cache: int, order: seq<Addr>, runs: seq<Run>) {
    (Listed(h, order, runs) && (px == NULL || Spare(h, order, px)) && Total(runs) <= cache) == true
  }

  ghost predicate Sound(h: Heap, g: Shadow) {
    ( && Rep(h.dirs, g.v) && FreeOK(h.holders, h.px, h.cache, g.order, g.runs)
      && Stocked(h.dirs.mem, g.v.pages, g.runs) && Accounted(g.v.pages, g.runs, g.lost)
      && PoolOK(h.pool, g.q) && Consistent(g.v, h.pool.infos, g.live)) == true
  }

  // ----- the free list and the directory -----

  lemma StockedKept(mem: Memory, mem': Memory, pages: map<int, Entry>, pages': map<int, Entry>, runs: seq<Run>)
    requires Stocked(mem, pages, runs) && KeepsDirs(mem, mem')
    requires forall p {:trigger EntryAt(pages', p)} :: EntryAt(pages, p) == Free && InRuns(runs, p) ==> EntryAt(pages', p) == Free
    ensures Stocked(mem', pages', runs)
  {
    forall p | InRuns(runs, p) ensures EntryAt(pages', p) == Free {
      assert EntryAt(pages, p) == Free;
    }
    forall a, d | Starts(runs, a, d) ensures d in mem' && PdIdx(mem'[d].dirnum) == PiIdx(a) {
      assert d in mem;
    }
  }

  /** A page on the free list is owned. */
  lemma StockOwned(mem: Memory, head: Addr, v: View, runs: seq<Run>, p: int)
    requires Directory(mem, head, v) && Stocked(mem, v.pages, runs) && InRuns(runs, p)
    ensures p in v.pages && p in v.owned && RESERVED <= p && PiIdx(p) in v.keys
  {
    assert EntryAt(v.pages, p) == Free;
  }

  lemma StockedLess(mem: Memory, pages: map<int, Entry>, runs: seq<Run>, runs': seq<Run>, a: int, b: int, s: int, d: Addr)
    requires Stocked(mem, pages, runs) && Removed(runs, a, b, runs') && StartsFrom(runs, runs', s, d)
    requires d in mem && PdIdx(mem[d].dirnum) == PiIdx(s)
    ensures Stocked(mem, pages, runs')
  {
  }

  lemma PiIdxRises(p: int, q: int)
    requires p <= q
    ensures PiIdx(p) <= PiIdx(q)
  {
  }

  /** What is known of the entry at position `i`. */
  lemma EntryKnown(mem: Memory, head: Addr, v: View, h: Holders, order: seq<Addr>, runs: seq<Run>, i: nat)
    requires Directory(mem, head, v) && Stocked(mem, v.pages, runs) && Listed(h, order, runs) && i < |order|
    ensures |order| == |runs| && order[i] in h && runs[i] == Run(h[order[i]].page, h[order[i]].size, h[order[i]].pdir) && 1 <= runs[i].size
    ensures runs[i].pdir in mem && PdIdx(mem[runs[i].pdir].dirnum) == PiIdx(runs[i].page)
    ensures RESERVED <= runs[i].page && runs[i].page in v.owned
  {
    Read(h, order, runs, i);
    StartsAt(runs, i);
    InRunsAt(runs, i, runs[i].page);
    StockOwned(mem, head, v, runs, runs[i].page);
  }

  lemma EntryPages(runs: seq<Run>, i: nat)
    requires i < |runs|
    ensures forall x :: runs[i].page <= x < End(runs[i]) ==> InRuns(runs, x)
  {
    forall x | runs[i].page <= x < End(runs[i]) ensures InRuns(runs, x) {
      InRunsAt(runs, i, x);
    }
  }

  /** The free list after [p, p + n) was taken from it. */
  ghost predicate Taken(mem: Memory, pages: map<int, Entry>, runs: seq<Run>, p: int, n: int, h': Holders, order': seq<Addr>, runs': seq<Run>) {
    ( && Listed(h', order', runs') && Removed(runs, p, p + n, runs') && Total(runs') == Total(runs) - n
      && Stocked(mem, pages, runs')) == true
  }

  /** Page `p` starts the first entry that has `n` pages. */
  ghost predicate FirstFits(runs: seq<Run>, n: int, p: int) {
    exists i {:trigger runs[i]} :: 0 <= i < |runs| && runs[i].page == p && n <= runs[i].size && forall k {:trigger runs[k]} :: 0 <= k < i ==> runs[k].size < n
  }

  /** No entry has `n` pages. */
  ghost predicate NoneFits(runs: seq<Run>, n: int) {
    forall k {:trigger runs[k]} :: 0 <= k < |runs| ==> runs[k].size < n
  }

  /** Pages [p, p + n) came off the first entry that has them, and `loose` fell out of use. */
  ghost predicate TookRun(mem: Memory, pages: map<int, Entry>, h: Holders, order: seq<Addr>, runs: seq<Run>, p: int, n: int,
                          h': Holders, loose: Addr, order': seq<Addr>, runs': seq<Run>) {
    (&& RESERVED <= p && FirstFits(runs, n, p) && Taken(mem, pages, runs, p, n, h', order', runs') && (forall x :: p <= x < p + n ==> InRuns(runs, x))
     && h'.Keys == h.Keys && (forall x :: x in order' ==> x in order)
     && (loose != NULL ==> loose in h' && loose in order && loose !in order' && loose != FREE_LIST)) == true
  }

  /** The free-list part of malloc_pages: `p` is 0 when no entry is large enough, `loose` the holder that fell out of use. */
  method TakeRun(mem: Memory, head: Addr, h: Holders, n: int, ghost v: View, ghost order: seq<Addr>, ghost runs: seq<Run>)
    returns (p: int, h': Holders, loose: Addr, ghost order': seq<Addr>, ghost runs': seq<Run>)
    requires Directory(mem, head, v) && Stocked(mem, v.pages, runs) && Listed(h, order, runs) && 1 <= n
    ensures p == 0 ==> h' == h && loose == NULL && order' == order && runs' == runs && NoneFits(runs, n)
    ensures p != 0 ==> TookRun(mem, v.pages, h, order, runs, p, n, h', loose, order', runs')
  {
    var pf;
    ghost var i: nat := 0;
    pf, i := FirstFit(h, n, order, runs);
    if pf == NULL {
      Read(h, order, runs, 0);
      return 0, h, NULL, order, runs;
    }
    EntryKnown(mem, head, v, h, order, runs, i);
    EntryPages(runs, i);
    ghost var first := runs[i];
    p := h[pf].page;
    if h[pf].size == n {
      h', order', runs' := TakeWhole(mem, head, h, pf, v, order, runs, i);
      loose := pf;
    } else {
      h', runs' := TakePart(mem, head, h, pf, n, v, order, runs, i);
      order', loose := order, NULL;
    }
  }

  method TakeWhole(mem: Memory, head: Addr, h: Holders, pf: Addr, ghost v: View, ghost order: seq<Addr>, ghost runs: seq<Run>, ghost i: nat)
    returns (h': Holders, ghost order': seq<Addr>, ghost runs': seq<Run>)
    requires Directory(mem, head, v) && Stocked(mem, v.pages, runs) && Listed(h, order, runs) && i < |order| && pf == order[i] && i < |runs|
    ensures Taken(mem, v.pages, runs, runs[i].page, runs[i].size, h', order', runs')
    ensures h'.Keys == h.Keys && (forall x :: x in order' <==> x in order && x != pf) && pf != FREE_LIST && pf != NULL
  {
    EntryKnown(mem, head, v, h, order, runs, i);
    Read(h, order, runs, i);
    ListedDelete(h, order, runs, i);
    RemovedDelete(runs, i);
    TotalDelete(runs, i);
    DeleteMembers(order, i);
    h', order', runs' := UnlinkHolder(h, pf), Delete(order, i), Delete(runs, i);
    StockedLess(mem, v.pages, runs, runs', runs[i].page, End(runs[i]), runs[i].page, runs[i].pdir);
  }

  method TakePart(mem: Memory, head: Addr, h: Holders, pf: Addr, n: int, ghost v: View, ghost order: seq<Addr>, ghost runs: seq<Run>, ghost i: nat)
    returns (h': Holders, ghost runs': seq<Run>)
    requires Directory(mem, head, v) && Stocked(mem, v.pages, runs) && Listed(h, order, runs) && i < |order| && pf == order[i] && i < |runs|
    requires 1 <= n < runs[i].size
    ensures Taken(mem, v.pages, runs, runs[i].page, n, h', order, runs')
    ensures h'.Keys == h.Keys
  {
    EntryKnown(mem, head, v, h, order, runs, i);
    var page := h[pf].page + n;
    PiIdxRises(runs[i].page, page);
    InRunsAt(runs, i, page);
    StockOwned(mem, head, v, runs, page);
    var pi;
    ghost var j: nat := 0;
    pi, j := WalkTo(mem, head, h[pf].pdir, PiIdx(page), v);
    Decode(mem, v.order, v.keys, v.owned, j);
    var g := Run(page, h[pf].size - n, pi);
    RemovedPart(runs, i, runs[i].page, page, g);
    TotalUpdate(runs, i, g);
    ListedUpdate(h, order, runs, i, g);
    h', runs' := PutRun(h, pf, g), runs[i := g];
    StockedLess(mem, v.pages, runs, runs', runs[i].page, page, page, pi);
  }

  // ----- malloc_pages -----

  /** `if (pi != last_dir) { prev_dir = last_dir; last_dir = pi; }` */
  function Touch(d: Dirs, pi: Addr): Dirs {
    if pi != d.last then d.(prev := d.last, last := pi) else d
  }

  /** The lookup that opens most operations: the directory of an owned page, remembered as the last one used. */
  method Enter(d: Dirs, p: int, ghost v: View) returns (d': Dirs, pi: Addr, ghost j: nat)
    requires Rep(d, v) && p in v.owned
    ensures Rep(d', v) && d' == Touch(d, pi) && j < |v.order| && pi == v.order[j] && v.keys[j] == PiIdx(p) && pi in d.mem && RESERVED <= p
  {
    var r;
    pi, r, j := Lookup(d.mem, d.head, d.last, d.prev, p, v);
    FoundDir(d.mem, d.head, v, j, p);
    d' := Touch(d, pi);
  }

  /** Marking the pages of a run as handed out. */
  method HandOut(d: Dirs, p: int, n: int, ghost v: View) returns (d': Dirs, ghost v': View)
    requires Rep(d, v) && 1 <= n && RESERVED <= p && Interval(p, p + n) <= v.owned
    ensures Rep(d', v') && v' == v.(pages := v'.pages) && KeepsDirs(d.mem, d'.mem)
    ensures Repainted(v.pages, v'.pages, p, p + n, First, Follow)
  {
    assert p in Interval(p, p + n);
    var d1, pi;
    ghost var j: nat := 0;
    d1, pi, j := Enter(d, p, v);
    var mem;
    mem, v' := MarkRun(d1.mem, d1.head, pi, p, n, v, j);
    d' := d1.(mem := mem);
  }

  /** A holder that is no longer needed becomes the spare, or is freed. */
  function Discard(h: Heap, loose: Addr): Heap {
    if loose == NULL then h
    else if h.px == NULL then h.(px := loose)
    else h.(holders := h.holders - {loose})
  }

  lemma DiscardOK(h: Holders, px: Addr, cache: int, order: seq<Addr>, runs: seq<Run>, loose: Addr)
    requires FreeOK(h, px, cache, order, runs) && loose in h && loose !in order && loose != NULL && loose != FREE_LIST && loose != px
    ensures if px == NULL then FreeOK(h, loose, cache, order, runs) else FreeOK(h - {loose}, px, cache, order, runs)
  {
    if px != NULL {
      ListedOutside(h, h - {loose}, order, runs, loose);
    }
  }

  /** What mmap answered: pages nobody has, or 0; and room for directories, or NULL. */
  ghost predicate MapAnswer(d: Dirs, v: View, run: int, n: int, region: Addr) {
    && (run != 0 ==> RESERVED <= run && Interval(run, run + n) !! v.owned)
    && (region != NULL ==> FreshRegion(d.mem, region, 0, DirsNeeded(v.keys, run, n)))
  }

  /** `g'` is `g` with a new block of `n` pages at page `p`. */
  ghost predicate GotPages(g: Shadow, g': Shadow, p: int, n: int, want: int) {
    (&& p * PAGE !in g.live && g'.live == g.live[p * PAGE := Req(want, n * PAGE)] && EntryAt(g'.v.pages, p) == First && RESERVED <= p && p in g'.v.owned
     && g'.lost == g.lost) == true
  }

  /** Where the pages came from: the first entry large enough, or the system if there is none. */
  ghost predicate CameFrom(g: Shadow, g': Shadow, p: int, n: int, run: int) {
    (if NoneFits(g.runs, n) then p == run && g'.runs == g.runs && g'.v.owned == g.v.owned + Interval(p, p + n)
     else FirstFits(g.runs, n, p) && Removed(g.runs, p, p + n, g'.runs) && g'.v.owned == g.v.owned) == true
  }

  /** There are no `n` pages to be had: no entry is large enough, and the system refused pages or the directory pages they need. */
  ghost predicate PagesRefused(g: Shadow, n: int, run: int, region: Addr) {
    (NoneFits(g.runs, n) && (run == 0 || (region == NULL && DirsNeeded(g.v.keys, run, n) != 0))) == true
  }

  /** Chunk pages and the cache limit stay, and holders are only given up. */
  ghost predicate OnlyPages(h: Heap, g: Shadow, h': Heap, g': Shadow) {
    (h'.cache == h.cache && h'.pool == h.pool && g'.q == g.q && h'.holders.Keys <= h.holders.Keys) == true
  }

  /** malloc_pages for `n` pages; `run` and `region` are the answers of mmap, should it be asked. */
  method MallocPages(h: Heap, n: int, want: int, run: int, region: Addr, ghost g: Shadow) returns (p: int, h': Heap, ghost g': Shadow)
    requires Sound(h, g) && 1 <= n && 0 <= want <= n * PAGE && MapAnswer(h.dirs, g.v, run, n, region)
    ensures Sound(h', g') && OnlyPages(h, g, h', g')
    ensures if p == 0 then h' == h && g' == g else GotPages(g, g', p, n, want) && CameFrom(g, g', p, n, run)
    ensures p == 0 <==> PagesRefused(g, n, run, region)
  {
    var holders, loose;
    ghost var order, runs;
    p, holders, loose, order, runs := TakeRun(h.dirs.mem, h.dirs.head, h.holders, n, g.v, g.order, g.runs);
    if p != 0 {
      h', g' := Reuse(h, p, n, want, holders, loose, g, order, runs, run, region);
    } else {
      p, h', g' := AskSystem(h, n, want, run, region, g);
    }
  }

  /** Pages from the system, which may refuse. */
  method AskSystem(h: Heap, n: int, want: int, run: int, region: Addr, ghost g: Shadow) returns (p: int, h': Heap, ghost g': Shadow)
    requires Sound(h, g) && 1 <= n && 0 <= want <= n * PAGE && MapAnswer(h.dirs, g.v, run, n, region) && NoneFits(g.runs, n)
    ensures Sound(h', g') && OnlyPages(h, g, h', g')
    ensures if p == 0 then h' == h && g' == g else GotPages(g, g', p, n, want) && CameFrom(g, g', p, n, run)
    ensures p == 0 <==> PagesRefused(g, n, run, region)
  {
    if run == 0 { return 0, h, g; }
    p, h', g' := MapNew(h, n, want, run, region, g);
  }

  lemma FitsOrNot(runs: seq<Run>, n: int, p: int)
    requires FirstFits(runs, n, p)
    ensures !NoneFits(runs, n)
  {
  }

  /** Pages from the free list. */
  method Reuse(h: Heap, p: int, n: int, want: int, holders: Holders, loose: Addr, ghost g: Shadow, ghost order: seq<Addr>, ghost runs: seq<Run>,
               ghost run: int, ghost region: Addr)
    returns (h': Heap, ghost g': Shadow)
    requires Sound(h, g) && 1 <= n && 0 <= want <= n * PAGE
    requires TookRun(h.dirs.mem, g.v.pages, h.holders, g.order, g.runs, p, n, holders, loose, order, runs)
    ensures Sound(h', g') && OnlyPages(h, g, h', g') && GotPages(g, g', p, n, want) && p != 0
    ensures CameFrom(g, g', p, n, run) && !PagesRefused(g, n, run, region)
  {
    FitsOrNot(g.runs, n, p);
    forall x | x in Interval(p, p + n) ensures x in g.v.owned && EntryAt(g.v.pages, x) == Free {
      StockOwned(h.dirs.mem, h.dirs.head, g.v, g.runs, x);
    }
    var dirs;
    ghost var v;
    dirs, v := HandOut(h.dirs, p, n, g.v);
    UnusedFree(g.v.pages, p, p + n);
    assert v.owned == g.v.owned + Interval(p, p + n);
    HandedOut(h.dirs.mem, dirs.mem, g.v, v, h.pool.infos, g.live, runs, g.runs, g.lost, p, p + n, want, n * PAGE);
    h' := Discard(h.(dirs := dirs, holders := holders), loose);
    g' := g.(v := v, order := order, runs := runs, live := g.live[p * PAGE := Req(want, n * PAGE)]);
    assert FreeOK(holders, h.px, h.cache, order, runs);
    if loose != NULL {
      DiscardOK(holders, h.px, h.cache, order, runs, loose);
    }
  }

  /** No page from `a` up to `b` is on the list. */
  ghost predicate Away(runs: seq<Run>, a: int, b: int) {
    forall x {:trigger InRuns(runs, x)} :: InRuns(runs, x) ==> !(a <= x < b)
  }

  /** Marking unused pages from `p` up to `e` adds one block and leaves the free list stocked. */
  lemma HandedOut(mem: Memory, mem': Memory, v: View, v': View, infos: map<Addr, Pginfo>, live: map<int, Req>, runs: seq<Run>,
                  runs0: seq<Run>, lost: set<int>, p: int, e: int, want: int, room: int)
    requires Accounted(v.pages, runs0, lost) && Removed(runs0, p, e, runs)
    requires Consistent(v, infos, live) && Stocked(mem, v.pages, runs) && KeepsDirs(mem, mem') && Away(runs, p, e)
    requires RESERVED <= p < e && Unused(v.pages, p, e) && 0 <= want <= room == (e - p) * PAGE
    requires v'.owned == v.owned + Interval(p, e) && v'.pages.Keys <= v'.owned && Repainted(v.pages, v'.pages, p, e, First, Follow)
    ensures Stocked(mem', v'.pages, runs) && Accounted(v'.pages, runs, lost)
    ensures p * PAGE !in live && EntryAt(v'.pages, p) == First && p in v'.owned
    ensures Consistent(v', infos, live[p * PAGE := Req(want, room)])
  {
    Marked(v, v', infos, live, p, e, want, room);
    StockedKept(mem, mem', v.pages, v'.pages, runs);
    AccountedOut(v.pages, v'.pages, runs0, runs, lost, p, e);
    assert p in Interval(p, e);
  }

  lemma AccountedOut(pages: map<int, Entry>, pages': map<int, Entry>, runs: seq<Run>, runs': seq<Run>, lost: set<int>, p: int, e: int)
    requires Accounted(pages, runs, lost) && Removed(runs, p, e, runs') && Repainted(pages, pages', p, e, First, Follow)
    ensures Accounted(pages', runs', lost)
  {
    forall x | EntryAt(pages', x) == Free ensures InRuns(runs', x) || x in lost {
      assert EntryAt(pages, x) == Free;
    }
  }

  lemma UnusedFree(pages: map<int, Entry>, p: int, e: int)
    requires 0 <= p && forall x :: x in Interval(p, e) ==> EntryAt(pages, x) == Free || EntryAt(pages, x) == NotMine
    ensures Unused(pages, p, e)
  {
    forall x | p <= x < e ensures EntryAt(pages, x) == Free || EntryAt(pages, x) == NotMine {
      assert x in Interval(p, e);
    }
  }

  /** A run that mmap made, painted, is a new block. */
  lemma MadeRun(h: Heap, g: Shadow, dirs: Dirs, v: View, run: int, n: nat, want: int)
    requires Sound(h, g) && 1 <= n && 0 <= want <= n * PAGE && RESERVED <= run && Interval(run, run + n) !! g.v.owned
    requires Rep(dirs, v) && v.owned == g.v.owned + Interval(run, run + n) && KeepsDirs(h.dirs.mem, dirs.mem)
    requires Repainted(g.v.pages, v.pages, run, run + n, First, Follow)
    ensures var g' := g.(v := v, live := g.live[run * PAGE := Req(want, n * PAGE)]);
      Sound(h.(dirs := dirs), g') && GotPages(g, g', run, n, want)
  {
    forall x | x in g.v.owned ensures !(run <= x < run + n) {
      assert x !in Interval(run, run + n);
    }
    UnusedFree(g.v.pages, run, run + n);
    NewAway(h, g, run, n);
    HandedOut(h.dirs.mem, dirs.mem, g.v, v, h.pool.infos, g.live, g.runs, g.runs, g.lost, run, run + n, want, n * PAGE);
  }

  lemma NewAway(h: Heap, g: Shadow, run: int, n: nat)
    requires Sound(h, g) && forall x {:trigger x in g.v.owned} :: x in g.v.owned ==> !(run <= x < run + n)
    ensures Away(g.runs, run, run + n)
  {
    forall x | InRuns(g.runs, x) ensures !(run <= x < run + n) {
      StockOwned(h.dirs.mem, h.dirs.head, g.v, g.runs, x);
    }
  }

  /** Pages from the system. */
  method MapNew(h: Heap, n: int, want: int, run: int, region: Addr, ghost g: Shadow) returns (p: int, h': Heap, ghost g': Shadow)
    requires Sound(h, g) && 1 <= n && 0 <= want <= n * PAGE && MapAnswer(h.dirs, g.v, run, n, region) && run != 0
    ensures Sound(h', g') && OnlyPages(h, g, h', g')
    ensures if p == 0 then h' == h && g' == g
            else p == run && GotPages(g, g', p, n, want) && g'.runs == g.runs && g'.v.owned == g.v.owned + Interval(p, p + n)
    ensures p == 0 <==> region == NULL && DirsNeeded(g.v.keys, run, n) != 0
  {
    var ok, d1;
    ghost var v1;
    ok, d1, v1 := MapPages(h.dirs, run, n, region, g.v);
    if !ok { return 0, h, g; }
    var dirs;
    ghost var v;
    dirs, v := HandOut(d1, run, n, v1);
    KeepsDirsTrans(h.dirs.mem, d1.mem, dirs.mem);
    MadeRun(h, g, dirs, v, run, n, want);
    p, h' := run, h.(dirs := dirs);
    g' := g.(v := v, live := g.live[p * PAGE := Req(want, n * PAGE)]);
  }

  // ----- free_pages -----

  /** The pages from `p` up to `e` are marked Free but on no list, and `spi` is the directory of the first. */
  ghost predicate Stray(h: Heap, g: Shadow, p: int, e: int, spi: Addr) {
    && RESERVED <= p < e && Away(g.runs, p, e) && (forall x {:trigger EntryAt(g.v.pages, x)} :: p <= x < e ==> EntryAt(g.v.pages, x) == Free)
    && spi in h.dirs.mem && PdIdx(h.dirs.mem[spi].dirnum) == PiIdx(p)
  }

  /** The scan that opens free_pages: it recovers exactly the run that was handed out. */
  method Reclaim(h: Heap, p: int, ghost g: Shadow) returns (h': Heap, n: int, spi: Addr, ghost g': Shadow)
    requires Sound(h, g) && p * PAGE in g.live && EntryAt(g.v.pages, p) == First
    ensures n * PAGE == g.live[p * PAGE].room && 1 <= n
    ensures Sound(h', g') && g' == g.(v := g'.v, live := g.live - {p * PAGE}, lost := g.lost + Interval(p, p + n)) && h' == h.(dirs := h'.dirs)
    ensures Stray(h', g', p, p + n, spi) && g'.v.owned == g.v.owned
  {
    ghost var n0 := RunAt(g.v, h.pool.infos, g.live, p);
    var mem;
    ghost var v;
    n, spi, mem, v := ReleaseAt(h.dirs, p, g.v, n0);
    h', g' := h.(dirs := h.dirs.(mem := mem)), g.(v := v, live := g.live - {p * PAGE}, lost := g.lost + Interval(p, p + n));
    ReclaimOK(h.dirs.mem, mem, g.v, v, h.pool.infos, g.live, g.runs, p, p + n);
    AccountedLost(g.v.pages, v.pages, g.runs, g.lost, p, p + n);
  }

  /** The scan of free_pages, from the directory of the run's first page. */
  method ReleaseAt(d: Dirs, p: int, ghost v: View, ghost n0: int) returns (n: int, spi: Addr, mem: Memory, ghost v': View)
    requires Rep(d, v) && RESERVED <= p && p in v.owned && RunIs(v.pages, p, n0)
    ensures n == n0 && Released(d.mem, d.head, v, p, p + n, mem, v')
    ensures spi in mem && PdIdx(mem[spi].dirnum) == PiIdx(p)
  {
    var r;
    ghost var j: nat := 0;
    spi, r, j := Lookup(d.mem, d.head, d.last, d.prev, p, v);
    FoundDir(d.mem, d.head, v, j, p);
    n, mem, v' := ReleaseRun(d.mem, d.head, spi, p, v, j, n0);
  }

  lemma RunAt(v: View, infos: map<Addr, Pginfo>, live: map<int, Req>, p: int) returns (n: int)
    requires Consistent(v, infos, live) && p * PAGE in live && EntryAt(v.pages, p) == First
    ensures RunIs(v.pages, p, n) && n * PAGE == live[p * PAGE].room && p in v.owned && RESERVED <= p
  {
    var ptr := p * PAGE;
    assert ptr / PAGE == p && Fits(v.pages, infos, ptr, live[ptr]);
    n := live[ptr].room / PAGE;
  }

  lemma ReclaimOK(mem: Memory, mem': Memory, v: View, v': View, infos: map<Addr, Pginfo>, live: map<int, Req>, runs: seq<Run>, p: int, e: int)
    requires Consistent(v, infos, live) && p * PAGE in live && EntryAt(v.pages, p) == First && live[p * PAGE].room == (e - p) * PAGE && p < e
    requires Stocked(mem, v.pages, runs) && KeepsDirs(mem, mem') && Repainted(v.pages, v'.pages, p, e, Free, Free)
    requires v' == v.(pages := v'.pages) && v'.pages.Keys <= v'.owned
    ensures Consistent(v', infos, live - {p * PAGE}) && Stocked(mem', v'.pages, runs) && Away(runs, p, e)
    ensures forall x {:trigger EntryAt(v'.pages, x)} :: p <= x < e ==> EntryAt(v'.pages, x) == Free
  {
    ReleasedBlock(v, v', infos, live, p, e);
    StockedKept(mem, mem', v.pages, v'.pages, runs);
    forall x | InRuns(runs, x) ensures !(p <= x < e) {
      assert EntryAt(v.pages, x) == Free;
      assert RunIs(v.pages, p, e - p);
    }
  }

  lemma AccountedLost(pages: map<int, Entry>, pages': map<int, Entry>, runs: seq<Run>, lost: set<int>, p: int, e: int)
    requires Accounted(pages, runs, lost) && Repainted(pages, pages', p, e, Free, Free) && 0 <= p
    ensures Accounted(pages', runs, lost + Interval(p, e))
  {
    forall x | EntryAt(pages', x) == Free ensures InRuns(runs, x) || x in lost + Interval(p, e) {
      assert p <= x < e || EntryAt(pages, x) == Free;
    }
  }

  /** `if (px == NULL) px = malloc_bytes(sizeof *px)`, with what that answered. */
  function Refill(h: Heap, spare: Addr): Heap {
    if h.px == NULL && spare != NULL
    then h.(px := spare, holders := h.holders[spare := PgFree(NULL, NULL, 0, NULL, 0)])
    else h
  }

  ghost predicate SpareAnswer(h: Holders, spare: Addr) {
    spare != NULL ==> spare !in h && spare != FREE_LIST
  }

  lemma RefillSound(h: Heap, spare: Addr, g: Shadow)
    requires Sound(h, g) && SpareAnswer(h.holders, spare)
    ensures Sound(Refill(h, spare), g)
  {
    if h.px == NULL && spare != NULL {
      RefillFree(h.holders, h.cache, g.order, g.runs, spare);
    }
  }

  method TopUp(h: Heap, spare: Addr, ghost g: Shadow) returns (h': Heap)
    requires Sound(h, g) && SpareAnswer(h.holders, spare)
    ensures Sound(h', g) && h'.cache == h.cache && h'.pool == h.pool && h'.holders.Keys <= h.holders.Keys + {spare}
  {
    RefillSound(h, spare, g);
    h' := Refill(h, spare);
  }

  lemma RefillFree(h: Holders, cache: int, order: seq<Addr>, runs: seq<Run>, spare: Addr)
    requires FreeOK(h, NULL, cache, order, runs) && spare !in h && spare != NULL && spare != FREE_LIST
    ensures FreeOK(h[spare := PgFree(NULL, NULL, 0, NULL, 0)], spare, cache, order, runs)
  {
    assert spare !in order;
    ListedOutside(h, h[spare := PgFree(NULL, NULL, 0, NULL, 0)], order, runs, spare);
  }

  /** The state once a run was filed under entry `i`: all is well but for the size of what is cached. */
  ghost predicate Filing(h: Heap, g: Shadow, i: int, pf: Addr, cached: int) {
    ( && Rep(h.dirs, g.v) && Listed(h.holders, g.order, g.runs) && (h.px == NULL || Spare(h.holders, g.order, h.px))
      && Stocked(h.dirs.mem, g.v.pages, g.runs) && Accounted(g.v.pages, g.runs, g.lost)
      && PoolOK(h.pool, g.q) && Consistent(g.v, h.pool.infos, g.live)
      && 0 <= i < |g.order| && |g.order| == |g.runs| && pf == g.order[i]
      && Bounded(g.runs, i, cached, h.cache, h.px == NULL)) == true
  }

  /** The limits that the trimming relies on. */
  ghost predicate Bounded(runs: seq<Run>, i: int, cached: int, cache: int, inserted: bool) {
    && 0 <= i < |runs| && 0 <= cache - cached && Total(runs) - runs[i].size <= cached && (cache == cached ==> inserted)
  }

  /** Filing and trimming lose no page, change neither the blocks nor the chunk pages, and acquire nothing. */
  ghost predicate Tidied(h: Heap, g: Shadow, h': Heap, g': Shadow) {
    ( && g'.live == g.live && g'.lost == g.lost && g'.q == g.q && h'.pool == h.pool && h'.cache == h.cache
      && g'.v.owned <= g.v.owned && h'.holders.Keys <= h.holders.Keys) == true
  }

  lemma StockedMore(mem: Memory, pages: map<int, Entry>, runs: seq<Run>, runs': seq<Run>, r: Run, i: int)
    requires Stocked(mem, pages, runs) && Added(runs, r, runs', i) && r.pdir in mem && PdIdx(mem[r.pdir].dirnum) == PiIdx(r.page)
    requires forall x {:trigger EntryAt(pages, x)} :: r.page <= x < End(r) ==> EntryAt(pages, x) == Free
    ensures Stocked(mem, pages, runs')
  {
  }

  /** free_pages from the point where the spare holder is at hand. */
  method FileRun(h: Heap, p: int, n: int, spi: Addr, ghost g: Shadow, ghost lost: set<int>) returns (h': Heap, ghost g': Shadow)
    requires Sound(h, g) && h.px != NULL && 1 <= n && Stray(h, g, p, p + n, spi) && g.lost == lost + Interval(p, p + n)
    ensures Sound(h', g') && Tidied(h, g.(lost := lost), h', g')
    ensures CachePolicy(g.runs, g.v.owned, p, n, h.cache, g'.runs, g'.v.owned) && EntryKept(g.runs, p, n, h.cache, g'.runs)
  {
    var r := Run(p, n, spi);
    var q;
    ghost var order, runs;
    ghost var i: nat := 0;
    q, order, runs, i := FilePlace(h.holders, h.px, r, h.cache, g.order, g.runs);
    StockedMore(h.dirs.mem, g.v.pages, g.runs, runs, r, i);
    Read(q.h, order, runs, i);
    StartsAt(runs, i);
    var h1 := h.(holders := q.h, px := q.px, dirs := Touch(h.dirs, q.h[q.pf].pdir));
    ghost var g1 := g.(order := order, runs := runs, lost := lost);
    AccountedFiled(g.v.pages, g.runs, runs, r, i, lost);
    assert runs[i].pdir in h.dirs.mem;
    assert Filing(h1, g1, i, q.pf, q.cached);
    var keep := h.cache - q.cached;
    h', g' := TrimCache(h1, q.pf, keep, q.cached, q.pt, g1, i);
    TrimPolicy(g, r, h.cache, q.cached, keep, g1, i, g');
  }

  /**
    What free_pages keeps and gives back: all is kept as long as it fits in malloc_cache, and otherwise as much as fits,
    except that the size of a collapsed entry is counted twice.
   */
  ghost predicate CachePolicy(runs: seq<Run>, owned: set<int>, p: int, n: int, cache: int, runs': seq<Run>, owned': set<int>) {
    (exists m {:trigger Doubled(runs, p, p + n, m)} :: Doubled(runs, p, p + n, m) &&
       if Total(runs) + n + m <= cache then Total(runs') == Total(runs) + n && owned' == owned else Total(runs') == cache - m) == true
  }

  /** What happened to the entry at position `i` when there was room for `keep` pages of it. */
  ghost predicate CutBack(g: Shadow, i: int, keep: int, g': Shadow) {
    (&& 0 <= i < |g.runs|
     && if g.runs[i].size <= keep then g'.runs == g.runs && g'.v.owned == g.v.owned else CutShort(g, i, keep, g')) == true
  }

  /** Only `keep` pages of entry `i` are left. */
  ghost predicate CutShort(g: Shadow, i: int, keep: int, g': Shadow) {
    (0 <= i < |g.runs| && g'.runs == CutList(g.runs, i, keep) && Total(g'.runs) == Total(g.runs) - g.runs[i].size + keep) == true
  }

  /** The list once only `keep` pages of entry `i` are left. */
  function CutList(runs: seq<Run>, i: nat, keep: int): seq<Run>
    requires i < |runs|
  {
    if keep > 0 then runs[i := runs[i].(size := keep)] else Delete(runs, i)
  }

  /**
    Whether the entry that the freed run [p, p + n) joined keeps a page: always, except when the list was at the limit
    already and no entry touched the run.
   */
  ghost predicate EntryKept(runs: seq<Run>, p: int, n: int, cache: int, runs': seq<Run>) {
    (exists f {:trigger Joins(runs, p, f)} :: Joins(runs, p, f) &&
       (InRuns(runs', f) <==> !(Total(runs) == cache && !Touched(runs, p, p + n)))) == true
  }

  lemma EntryFate(g: Shadow, p: int, n: int, cache: int, keep: int, g1: Shadow, i: int, g': Shadow)
    requires CutBack(g1, i, keep, g') && Tidy(g1.runs) && 0 <= keep && Joins(g.runs, p, g1.runs[i].page)
    requires keep == 0 <==> Total(g.runs) == cache && !Touched(g.runs, p, p + n)
    ensures EntryKept(g.runs, p, n, cache, g'.runs)
  {
    var e := g1.runs[i];
    if keep == 0 {
      RemovedDelete(g1.runs, i);
      assert !InRuns(Delete(g1.runs, i), e.page);
    } else {
      assert g'.runs[i].page == e.page && 1 <= g'.runs[i].size;
      InRunsAt(g'.runs, i, e.page);
    }
  }

  /** How the run r was filed: as part of which entry, and how much of that entry the cache has room for. */
  ghost predicate Placed(runs: seq<Run>, r: Run, cache: int, runs': seq<Run>, i: int, cached: int) {
    (&& 0 <= i < |runs'| && Tidy(runs') && 0 <= cache - cached
     && Total(runs') == Total(runs) + r.size
     && Doubled(runs, r.page, r.page + r.size, cached + runs'[i].size - Total(runs) - r.size)
     && Joins(runs, r.page, runs'[i].page)
     && (cache - cached == 0 <==> Total(runs) == cache && !Touched(runs, r.page, r.page + r.size))) == true
  }

  lemma TrimPolicy(g: Shadow, r: Run, cache: int, cached: int, keep: int, g1: Shadow, i: int, g': Shadow)
    requires CutBack(g1, i, keep, g') && g1.v.owned == g.v.owned && Placed(g.runs, r, cache, g1.runs, i, cached) && keep == cache - cached
    ensures CachePolicy(g.runs, g.v.owned, r.page, r.size, cache, g'.runs, g'.v.owned) && EntryKept(g.runs, r.page, r.size, cache, g'.runs)
  {
    var m := cached + g1.runs[i].size - Total(g.runs) - r.size;
    assert Doubled(g.runs, r.page, r.page + r.size, m);
    EntryFate(g, r.page, r.size, cache, keep, g1, i, g');
  }

  lemma AccountedFiled(pages: map<int, Entry>, runs: seq<Run>, runs': seq<Run>, r: Run, i: int, lost: set<int>)
    requires Accounted(pages, runs, lost + Interval(r.page, r.page + r.size)) && Added(runs, r, runs', i)
    ensures Accounted(pages, runs', lost)
  {
    forall x | EntryAt(pages, x) == Free ensures InRuns(runs', x) || x in lost {
      assert InRuns(runs', x) <==> InRuns(runs, x) || r.page <= x < End(r);
    }
  }

  /** Filling in the spare holder and placing it, with what that means for the cache. */
  method FilePlace(h: Holders, px: Addr, r: Run, cache: int, ghost order: seq<Addr>, ghost runs: seq<Run>)
    returns (q: Placing, ghost order': seq<Addr>, ghost runs': seq<Run>, ghost i: nat)
    requires FreeOK(h, px, cache, order, runs) && px != NULL && 1 <= r.size && Away(runs, r.page, r.page + r.size)
    ensures !q.destroyed && Listed(q.h, order', runs') && i < |order'| && q.pf == order'[i] && |order'| == |runs'|
    ensures Added(runs, r, runs', i) && Bounded(runs', i, q.cached, cache, q.px == NULL)
    ensures Placed(runs, r, cache, runs', i, q.cached)
    ensures q.px == NULL || Spare(q.h, order', q.px)
    ensures q.pt != NULL ==> Spare(q.h, order', q.pt) && q.px != NULL && q.pt != q.px
    ensures q.h.Keys == h.Keys
  {
    var h1 := PutRun(h, px, r);
    ListedOutside(h, h1, order, runs, px);
    ClearOf(runs, r);
    q, order', runs', i := Place(h1, px, r, order, runs);
    Read(q.h, order', runs', i);
    TrimBounds(runs, r, runs', i, q.cached, q.px == NULL, cache);
  }

  // ----- returning pages to the system -----

  /** A directory below the trimmed pages outlives the trimming. */
  lemma PrevSurvives(mem: Memory, mem': Memory, head: Addr, v: View, v': View, index: int, end: int, a: Addr)
    requires Directory(mem, head, v) && Busy(v.keys, v.owned) && Directory(mem', head, v') && Shrinks(mem, mem')
    requires v'.owned == v.owned - Interval(index, end) && a in mem && PdIdx(mem[a].dirnum) < PiIdx(index)
    ensures a in mem'
  {
    var j := Position(mem, v.order, v.keys, v.owned, a);
    if j == 0 {
      var b := v'.order[0];
      assert b in mem';
    } else {
      var k := v.keys[j];
      var x :| x in InDir(v.owned, k);
      if index <= x {
        PiIdxRises(index, x);
      }
      assert x !in Interval(index, end);
      Survives(mem, mem', head, v, v', a, x);
    }
  }

  /** Unmapping [index, end), with the directories that become empty; prev_dir is forgotten if it might be one of them. */
  method TrimDirs(d: Dirs, pdir: Addr, index: int, end: int, ghost v: View) returns (d': Dirs, ghost v': View)
    requires Rep(d, v) && pdir in d.mem && PdIdx(d.mem[pdir].dirnum) <= PiIdx(index) && RESERVED <= index < end && Interval(index, end) <= v.pages.Keys
    ensures Directory(d'.mem, d'.head, v') && Busy(v'.keys, v'.owned) && Shrinks(d.mem, d'.mem)
    ensures d'.head == d.head && d'.last == d.last && (d'.prev == NULL || d'.prev in d'.mem)
    ensures v'.owned == v.owned - Interval(index, end) && v'.pages == v.pages - Interval(index, end)
  {
    var prev := if d.prev != NULL && PdIdx(d.mem[d.prev].dirnum) >= PiIdx(index) then NULL else d.prev;
    var mem;
    mem, v' := Trim(d.mem, d.head, pdir, index, end, v);
    if prev != NULL {
      PrevSurvives(d.mem, mem, d.head, v, v', index, end, prev);
    }
    d' := d.(mem := mem, prev := prev);
  }

  /** The free list stays stocked when pages that are not on it are unmapped. */
  lemma StockedTrim(mem: Memory, mem': Memory, head: Addr, v: View, v': View, runs: seq<Run>, index: int, end: int)
    requires Directory(mem, head, v) && Directory(mem', head, v') && Shrinks(mem, mem') && 0 <= index && Tidy(runs)
    requires Stocked(mem, v.pages, runs) && Away(runs, index, end)
    requires v'.owned == v.owned - Interval(index, end) && v'.pages == v.pages - Interval(index, end)
    ensures Stocked(mem', v'.pages, runs)
  {
    TrimmedMap(v.pages, index, end);
    forall x | InRuns(runs, x) ensures EntryAt(v'.pages, x) == Free {
      assert EntryAt(v.pages, x) == Free;
    }
    forall a, d | Starts(runs, a, d) ensures d in mem' && PdIdx(mem'[d].dirnum) == PiIdx(a) {
      var k :| 0 <= k < |runs| && runs[k].page == a && runs[k].pdir == d;
      InRunsAt(runs, k, a);
      StockOwned(mem, head, v, runs, a);
      assert a !in Interval(index, end);
      Survives(mem, mem', head, v, v', d, a);
    }
  }

  /** Return something to the system if more would be cached than malloc_cache allows; `pt` is the holder of a collapsed entry. */
  method TrimCache(h: Heap, pf: Addr, keep: int, cached: int, pt: Addr, ghost g: Shadow, ghost i: nat) returns (h': Heap, ghost g': Shadow)
    requires Filing(h, g, i, pf, cached) && h.dirs.last == g.runs[i].pdir && keep == h.cache - cached
    requires pt != NULL ==> Spare(h.holders, g.order, pt) && h.px != NULL && pt != h.px
    ensures Sound(h', g') && Tidied(h, g, h', g') && CutBack(g, i, keep, g')
  {
    EntryKnown(h.dirs.mem, h.dirs.head, g.v, h.holders, g.order, g.runs, i);
    if h.holders[pf].size <= keep {
      h', g' := h, g;
    } else {
      h', g' := TrimEntry(h, pf, keep, cached, g, i);
    }
    if pt != NULL {
      ghost var h1 := h';
      DiscardOK(h1.holders, h1.px, h1.cache, g'.order, g'.runs, pt);
      h' := h'.(holders := h'.holders - {pt});
    }
  }

  /** A spare holder, if there is one, stays the spare and the list keeps its holders. */
  ghost predicate SameHolders(h: Heap, g: Shadow, h': Heap, g': Shadow) {
    (h.px != NULL ==> h'.px == h.px && h'.holders.Keys == h.holders.Keys && g'.order == g.order) == true
  }

  method TrimEntry(h: Heap, pf: Addr, keep: int, cached: int, ghost g: Shadow, ghost i: nat) returns (h': Heap, ghost g': Shadow)
    requires Filing(h, g, i, pf, cached) && h.dirs.last == g.runs[i].pdir && keep == h.cache - cached < g.runs[i].size
    ensures Sound(h', g') && Tidied(h, g, h', g') && CutShort(g, i, keep, g') && SameHolders(h, g, h', g')
  {
    var dirs;
    ghost var v, index, end;
    dirs, v, index, end := Unmap(h, pf, keep, cached, g, i);
    if keep > 0 {
      h', g' := KeepPart(h, pf, keep, cached, dirs, g, i, v, index, end);
    } else {
      h', g' := KeepNone(h, pf, keep, cached, dirs, g, i, v, index, end);
    }
  }

  /** The pages of the entry after the first `keep` go back to the system. */
  method Unmap(h: Heap, pf: Addr, keep: int, cached: int, ghost g: Shadow, ghost i: nat) returns (dirs: Dirs, ghost v: View, ghost index: int, ghost end: int)
    requires Filing(h, g, i, pf, cached) && h.dirs.last == g.runs[i].pdir && keep == h.cache - cached < g.runs[i].size
    ensures Cutting(h, pf, keep, cached, dirs, g, i, v, index, end)
  {
    EntryKnown(h.dirs.mem, h.dirs.head, g.v, h.holders, g.order, g.runs, i);
    var e := h.holders[pf];
    var from, to := e.page + keep, e.page + e.size;
    PiIdxRises(e.page, from);
    FreePart(h.dirs.mem, h.dirs.head, g.v, g.runs, i, from, to);
    dirs, v := UnmapPages(h, e.pdir, from, to, g);
    index, end := from, to;
    assert 0 <= keep < g.runs[i].size && index == g.runs[i].page + keep && end == End(g.runs[i]);
  }

  /** The directories lose the pages from `index` up to `end`, which are no part of a block. */
  method UnmapPages(h: Heap, pdir: Addr, index: int, end: int, ghost g: Shadow) returns (dirs: Dirs, ghost v: View)
    requires Rep(h.dirs, g.v) && Consistent(g.v, h.pool.infos, g.live) && pdir in h.dirs.mem && PdIdx(h.dirs.mem[pdir].dirnum) <= PiIdx(index)
    requires RESERVED <= index < end && Interval(index, end) <= g.v.pages.Keys && Unused(g.v.pages, index, end)
    ensures Shrunk(h, dirs, g, v, index, end)
  {
    dirs, v := TrimDirs(h.dirs, pdir, index, end, g.v);
    TrimmedPages(g.v, v, h.pool.infos, g.live, index, end);
  }

  lemma FreePart(mem: Memory, head: Addr, v: View, runs: seq<Run>, i: nat, index: int, end: int)
    requires Directory(mem, head, v) && Stocked(mem, v.pages, runs) && i < |runs| && runs[i].page <= index < end == End(runs[i])
    ensures Interval(index, end) <= v.pages.Keys && Unused(v.pages, index, end) && RESERVED <= index
  {
    InRunsAt(runs, i, index);
    StockOwned(mem, head, v, runs, index);
    forall x | index <= x < end ensures x in v.pages && EntryAt(v.pages, x) == Free && RESERVED <= x {
      InRunsAt(runs, i, x);
      StockOwned(mem, head, v, runs, x);
    }
  }

  /** The directories and blocks are settled for a view whose pages from `index` up to `end` are gone. */
  ghost predicate Shrunk(h: Heap, dirs: Dirs, g: Shadow, v: View, index: int, end: int) {
    ( && Directory(dirs.mem, dirs.head, v) && Busy(v.keys, v.owned) && Shrinks(h.dirs.mem, dirs.mem)
      && dirs.head == h.dirs.head && dirs.last == h.dirs.last && (dirs.prev == NULL || dirs.prev in dirs.mem)
      && v.owned == g.v.owned - Interval(index, end) && v.pages == g.v.pages - Interval(index, end)
      && Consistent(v, h.pool.infos, g.live)) == true
  }

  /** An entry of which all but the first `keep` pages are gone, but which still says otherwise. */
  ghost predicate Cutting(h: Heap, pf: Addr, keep: int, cached: int, dirs: Dirs, g: Shadow, i: int, v: View, index: int, end: int) {
    ( && Filing(h, g, i, pf, cached) && h.dirs.last == g.runs[i].pdir && keep == h.cache - cached && 0 <= keep < g.runs[i].size
      && index == g.runs[i].page + keep && end == End(g.runs[i]) && Shrunk(h, dirs, g, v, index, end)) == true
  }

  /** The entry shrinks to the `keep` pages that still fit in the cache. */
  method KeepPart(h: Heap, pf: Addr, keep: int, cached: int, dirs: Dirs, ghost g: Shadow, ghost i: nat, ghost v: View,
                  ghost index: int, ghost end: int) returns (h': Heap, ghost g': Shadow)
    requires Cutting(h, pf, keep, cached, dirs, g, i, v, index, end) && 0 < keep
    ensures Sound(h', g') && Tidied(h, g, h', g') && CutShort(g, i, keep, g')
    ensures h'.px == h.px && h'.holders.Keys == h.holders.Keys && g'.order == g.order && SameHolders(h, g, h', g')
  {
    EntryKnown(h.dirs.mem, h.dirs.head, g.v, h.holders, g.order, g.runs, i);
    var e := h.holders[pf];
    var r := Run(e.page, keep, e.pdir);
    ghost var runs := g.runs[i := r];
    h' := h.(dirs := dirs, holders := PutRun(h.holders, pf, r));
    g' := g.(v := v, runs := runs);
    KeptList(h.holders, h.px, h.cache, g.order, g.runs, i, r, cached, index, end);
    KeptStock(h.dirs.mem, dirs.mem, dirs.head, g.v, v, g.runs, runs, r, index, end);
    AccountedTrim(g.v.pages, v.pages, g.runs, runs, g.lost, index, end);
  }

  lemma KeptStock(mem: Memory, mem': Memory, head: Addr, v: View, v': View, runs: seq<Run>, runs': seq<Run>, r: Run, index: int, end: int)
    requires Directory(mem, head, v) && Directory(mem', head, v') && Shrinks(mem, mem') && 0 <= index && Tidy(runs')
    requires Stocked(mem, v.pages, runs) && Removed(runs, index, end, runs') && Away(runs', index, end) && StartsFrom(runs, runs', r.page, r.pdir)
    requires v'.owned == v.owned - Interval(index, end) && v'.pages == v.pages - Interval(index, end)
    requires r.pdir in mem && PdIdx(mem[r.pdir].dirnum) == PiIdx(r.page) && r.page in v.owned
    ensures Stocked(mem', v'.pages, runs') && (r.page < index ==> r.pdir in mem')
  {
    StockedLess(mem, v.pages, runs, runs', index, end, r.page, r.pdir);
    StockedTrim(mem, mem', head, v, v', runs', index, end);
    if r.page < index {
      assert r.page in v'.owned;
      Survives(mem, mem', head, v, v', r.pdir, r.page);
    }
  }

  lemma AccountedTrim(pages: map<int, Entry>, pages': map<int, Entry>, runs: seq<Run>, runs': seq<Run>, lost: set<int>, index: int, end: int)
    requires Accounted(pages, runs, lost) && Removed(runs, index, end, runs') && pages' == pages - Interval(index, end) && 0 <= index
    ensures Accounted(pages', runs', lost)
  {
    TrimmedMap(pages, index, end);
    forall x | EntryAt(pages', x) == Free ensures InRuns(runs', x) || x in lost {
      assert EntryAt(pages, x) == Free;
    }
  }

  lemma KeptList(h: Holders, px: Addr, cache: int, order: seq<Addr>, runs: seq<Run>, i: nat, r: Run, cached: int, index: int, end: int)
    requires Listed(h, order, runs) && (px == NULL || Spare(h, order, px)) && i < |order| && Bounded(runs, i, cached, cache, px == NULL)
    requires 0 < r.size == cache - cached && CutTo(runs[i], index, end, r) && end == End(runs[i])
    ensures order[i] in h && FreeOK(PutRun(h, order[i], r), px, cache, order, runs[i := r])
    ensures Total(runs[i := r]) == Total(runs) - runs[i].size + r.size
    ensures Removed(runs, index, end, runs[i := r]) && Tidy(runs[i := r]) && Away(runs[i := r], index, end) && StartsFrom(runs, runs[i := r], r.page, r.pdir)
  {
    RemovedPart(runs, i, index, end, r);
    TotalUpdate(runs, i, r);
    ListedUpdate(h, order, runs, i, r);
  }

  /** Nothing of the entry fits: it was just inserted, there is no spare holder, and its own becomes the spare. */
  method KeepNone(h: Heap, pf: Addr, keep: int, cached: int, dirs: Dirs, ghost g: Shadow, ghost i: nat, ghost v: View,
                  ghost index: int, ghost end: int) returns (h': Heap, ghost g': Shadow)
    requires Cutting(h, pf, keep, cached, dirs, g, i, v, index, end) && keep == 0
    ensures Sound(h', g') && Tidied(h, g, h', g') && CutShort(g, i, keep, g') && SameHolders(h, g, h', g')
    ensures h.px == NULL && h'.px == pf && h'.holders.Keys == h.holders.Keys && g'.order == Delete(g.order, i)
    ensures h'.dirs.last == dirs.prev && h'.dirs.prev == NULL
  {
    EntryKnown(h.dirs.mem, h.dirs.head, g.v, h.holders, g.order, g.runs, i);
    ghost var r := g.runs[i];
    ghost var order, runs := Delete(g.order, i), Delete(g.runs, i);
    DroppedList(h.holders, h.cache, g.order, g.runs, i, cached);
    h' := h.(dirs := dirs.(last := dirs.prev, prev := NULL), holders := UnlinkHolder(h.holders, pf), px := pf);
    g' := g.(v := v, order := order, runs := runs);
    KeptStock(h.dirs.mem, dirs.mem, dirs.head, g.v, v, g.runs, runs, r, index, end);
    AccountedTrim(g.v.pages, v.pages, g.runs, runs, g.lost, index, end);
  }

  lemma DroppedList(h: Holders, cache: int, order: seq<Addr>, runs: seq<Run>, i: nat, cached: int)
    requires Listed(h, order, runs) && i < |order| && Bounded(runs, i, cached, cache, true) && cached == cache
    ensures var pf := order[i]; pf in h && h[pf].prev in h && (h[pf].next != NULL ==> h[pf].next in h)
    ensures Total(Delete(runs, i)) == Total(runs) - runs[i].size
    ensures FreeOK(UnlinkHolder(h, order[i]), order[i], cache, Delete(order, i), Delete(runs, i)) && UnlinkHolder(h, order[i]).Keys == h.Keys
    ensures Removed(runs, runs[i].page, End(runs[i]), Delete(runs, i)) && Tidy(Delete(runs, i)) && Away(Delete(runs, i), runs[i].page, End(runs[i]))
    ensures StartsFrom(runs, Delete(runs, i), runs[i].page, runs[i].pdir)
  {
    Read(h, order, runs, i);
    RemovedDelete(runs, i);
    TotalDelete(runs, i);
    TidyDelete(runs, i);
    ListedDelete(h, order, runs, i);
    DeleteMembers(order, i);
  }

  /** What became of pages [p, p + n) that came back: filed by the policy if there was a holder for them, and otherwise lost. */
  ghost predicate PagesBack(holder: bool, g: Shadow, g': Shadow, p: int, n: int, cache: int) {
    (if holder then
       && g'.lost == g.lost && CachePolicy(g.runs, g.v.owned, p, n, cache, g'.runs, g'.v.owned)
       && EntryKept(g.runs, p, n, cache, g'.runs)
     else g'.lost == g.lost + Interval(p, p + n) && g'.runs == g.runs && g'.v.owned == g.v.owned) == true
  }

  /** `g1` differs from `g` in nothing that the policy looks at. */
  lemma PagesBackFrom(holder: bool, g: Shadow, g1: Shadow, g': Shadow, p: int, n: int, cache: int)
    requires PagesBack(holder, g1, g', p, n, cache) && g1.runs == g.runs && g1.lost == g.lost && g1.v.owned == g.v.owned
    ensures PagesBack(holder, g, g', p, n, cache)
  {
  }

  /** free_pages; `spare` is what the request for a holder is answered with, should one be needed. */
  method FreePages(h: Heap, p: int, spare: Addr, ghost g: Shadow) returns (h': Heap, n: int, ghost g': Shadow)
    requires Sound(h, g) && p * PAGE in g.live && EntryAt(g.v.pages, p) == First && SpareAnswer(h.holders, spare)
    ensures n * PAGE == g.live[p * PAGE].room
    ensures Sound(h', g') && g'.live == g.live - {p * PAGE} && g'.q == g.q && h'.pool == h.pool && h'.cache == h.cache && g'.v.owned <= g.v.owned
    ensures h'.holders.Keys <= h.holders.Keys + {spare}
    ensures PagesBack(h.px != NULL || spare != NULL, g, g', p, n, h.cache)
  {
    var spi;
    h', n, spi, g' := Reclaim(h, p, g);
    RefillSound(h', spare, g');
    h' := Refill(h', spare);
    if h'.px != NULL {
      h', g' := FileRun(h', p, n, spi, g', g.lost);
    }
  }

  // ----- pages of chunks -----

  /** `pd[PI_OFF(p)] = e` through a lookup, as malloc_make_chunks and free_bytes do it. */
  method SetEntry(d: Dirs, p: int, e: Entry, ghost v: View) returns (d': Dirs)
    requires Rep(d, v) && p in v.owned && e != NotMine
    ensures Rep(d', v.(pages := v.pages[p := e])) && KeepsDirs(d.mem, d'.mem)
  {
    var d1, pi;
    ghost var j: nat := 0;
    d1, pi, j := Enter(d, p, v);
    DirectoryPut(d.mem, d.head, v, j, p, e);
    d' := d1.(mem := PutEntry(d.mem, pi, PiOff(p), e));
  }

  lemma StockedEntry(mem: Memory, mem': Memory, pages: map<int, Entry>, runs: seq<Run>, p: int, e: Entry)
    requires Stocked(mem, pages, runs) && KeepsDirs(mem, mem') && EntryAt(pages, p) != Free
    ensures Stocked(mem', pages[p := e], runs)
  {
    forall x | EntryAt(pages, x) == Free && InRuns(runs, x) ensures EntryAt(pages[p := e], x) == Free {
      assert x != p;
    }
    StockedKept(mem, mem', pages, pages[p := e], runs);
  }

  lemma AccountedEntry(pages: map<int, Entry>, runs: seq<Run>, lost: set<int>, p: int, e: Entry)
    requires Accounted(pages, runs, lost) && e != Free
    ensures Accounted(pages[p := e], runs, lost)
  {
    forall x | EntryAt(pages[p := e], x) == Free ensures InRuns(runs, x) || x in lost {
      assert EntryAt(pages, x) == Free;
    }
  }

  /** The address of the record for a new page of chunks is not in use. */
  lemma RecordFree(v: View, infos: map<Addr, Pginfo>, live: map<int, Req>, p: int)
    requires Consistent(v, infos, live) && EntryAt(v.pages, p) == First && RESERVED <= p
    ensures p !in infos
  {
  }

  /** What the system and the outer allocator answer during one operation: three requests for holders, mmap, and a pginfo record. */
  datatype Env = Env(s0: Addr, s1: Addr, s2: Addr, run: int, region: Addr, record: Addr, junk: seq<Word>)

  /** The answers to the second and third request are unused addresses. */
  ghost predicate SparesOK(h: Holders, env: Env) {
    SpareAnswer(h, env.s1) && SpareAnswer(h, env.s2) && (env.s1 == NULL || env.s1 != env.s2)
  }

  /** And so is the answer to the first. */
  ghost predicate FirstSpareOK(h: Holders, env: Env) {
    SpareAnswer(h, env.s0) && (env.s0 == NULL || (env.s0 != env.s1 && env.s0 != env.s2))
  }

  /** The pages that a request makes malloc ask for. */
  function PagesFor(size: int): int {
    if size <= MAXSIZE then 1 else PageRound(size) / PAGE
  }

  ghost predicate EnvOK(h: Heap, g: Shadow, size: int, env: Env) {
    ( && SparesOK(h.holders, env) && MapAnswer(h.dirs, g.v, env.run, PagesFor(size), env.region)
      && env.record <= 0 && env.record !in h.pool.infos && Words(env.junk) && |env.junk| == BITS) == true
  }

  lemma AdminSmall(b: nat)
    requires IsBucket(b)
    ensures AdminWords(b) <= BITS
  {
    assert Pow2(12) == 4096 && Pow2(8) == 256 && Pow2(7) == 128 && Pow2(6) == 64 && Pow2(5) == 32 && Pow2(4) == 16 && Pow2(3) == 8 && Pow2(2) == 4 && Pow2(1) == 2;
  }

  /** A record for page `p` was added at `at`. */
  ghost predicate NewPage(infos: map<Addr, Pginfo>, infos': map<Addr, Pginfo>, at: Addr, p: int) {
    (at !in infos && at in infos' && infos' == infos[at := infos'[at]] && infos'[at].page == p) == true
  }

  /** A page obtained from malloc_pages is turned into chunks. */
  method Carve(h: Heap, b: nat, p: int, at: Addr, junk: seq<Word>, ghost g: Shadow) returns (h': Heap, ghost g': Shadow)
    requires Sound(h, g) && IsBucket(b) && EntryAt(g.v.pages, p) == First && p * PAGE in g.live && g.live[p * PAGE].room == PAGE && p in g.v.owned
    requires at !in h.pool.infos && (if InPage(b) then at == p else at < 0) && RESERVED <= p && Words(junk) && |junk| == AdminWords(b)
    ensures Sound(h', g') && g'.live == g.live - {p * PAGE} && h'.cache == h.cache && h'.holders == h.holders && g'.lost == g.lost
    ensures |h'.pool.buckets| == BUCKETS && h'.pool.buckets[b] == at && NewPage(h.pool.infos, h'.pool.infos, at, p)
    ensures g'.runs == g.runs && g'.v.owned == g.v.owned
  {
    var pool;
    ghost var q;
    pool, q := AddPage(h.pool, b, p, at, junk, g.q);
    var dirs := SetEntry(h.dirs, p, Chunk(at), g.v);
    ghost var v := g.v.(pages := g.v.pages[p := Chunk(at)]);
    h', g' := h.(dirs := dirs, pool := pool), g.(v := v, q := q, live := g.live - {p * PAGE});
    StockedEntry(h.dirs.mem, dirs.mem, g.v.pages, g.runs, p, Chunk(at));
    AccountedEntry(g.v.pages, g.runs, g.lost, p, Chunk(at));
    InfoIn(pool, at, q);
    BecomesChunks(g.v, v, h.pool.infos, g.live, p, at, pool.infos[at]);
  }

  lemma InfoIn(pool: Pool, a: Addr, q: Queues)
    requires PoolOK(pool, q) && a in pool.infos
    ensures InfoOK(pool.infos[a]) && a != NULL && IsBucket(BucketOf(pool.infos[a]))
  {
  }

  lemma PutDrop(m: map<int, Req>, k: int, r: Req)
    requires k !in m
    ensures m[k := r] - {k} == m
  {
  }

  /** The pages changed hands as in malloc_pages, and the one obtained has its record at `at`. */
  ghost predicate MadePage(h: Heap, g: Shadow, h': Heap, g': Shadow, at: Addr, run: int) {
    (at != NULL && at !in h.pool.infos && at in h'.pool.infos && h'.pool.infos == h.pool.infos[at := h'.pool.infos[at]]
     && CameFrom(g, g', h'.pool.infos[at].page, 1, run)) == true
  }

  /** malloc_make_chunks */
  method MakeChunks(h: Heap, b: nat, env: Env, ghost g: Shadow) returns (ok: bool, h': Heap, ghost g': Shadow)
    requires Sound(h, g) && IsBucket(b) && EnvOK(h, g, 0, env)
    ensures Sound(h', g') && g'.live == g.live && h'.cache == h.cache && h'.holders.Keys <= h.holders.Keys + {env.s1, env.s2}
    ensures ok <==> !PagesRefused(g, 1, env.run, env.region) && (InPage(b) || env.record != NULL)
    ensures if ok then |h'.pool.buckets| == BUCKETS && MadePage(h, g, h', g', h'.pool.buckets[b], env.run) else h'.pool == h.pool
    ensures env.s1 != NULL ==> g'.lost == g.lost
  {
    var p, h1;
    ghost var g1;
    p, h1, g1 := MallocPages(h, 1, PAGE, env.run, env.region, g);
    if p == 0 { return false, h1, g1; }
    ok, h', g' := MakeOn(h1, b, p, env, g1);
    PutDrop(g.live, p * PAGE, Req(PAGE, 1 * PAGE));
    if ok {
      MadeFrom(h, g, h1, g1, h', g', h'.pool.buckets[b], p, env.run);
    }
  }

  lemma MadeFrom(h: Heap, g: Shadow, h1: Heap, g1: Shadow, h': Heap, g': Shadow, at: Addr, p: int, run: int)
    requires CameFrom(g, g1, p, 1, run) && h1.pool == h.pool && at != NULL && NewPage(h1.pool.infos, h'.pool.infos, at, p)
    requires g'.runs == g1.runs && g'.v.owned == g1.v.owned
    ensures MadePage(h, g, h', g', at, run)
  {
  }

  /** The rest of malloc_make_chunks, on the page obtained. */
  method MakeOn(h: Heap, b: nat, p: int, env: Env, ghost g: Shadow) returns (ok: bool, h': Heap, ghost g': Shadow)
    requires Sound(h, g) && IsBucket(b) && EntryAt(g.v.pages, p) == First && p * PAGE in g.live && g.live[p * PAGE].room == PAGE
    requires p in g.v.owned && RESERVED <= p && SparesOK(h.holders, env)
    requires env.record <= 0 && env.record !in h.pool.infos && Words(env.junk) && |env.junk| == BITS
    ensures Sound(h', g') && g'.live == g.live - {p * PAGE} && h'.cache == h.cache && h'.holders.Keys <= h.holders.Keys + {env.s1, env.s2}
    ensures ok <==> InPage(b) || env.record != NULL
    ensures !ok ==> h'.pool == h.pool
    ensures ok ==> |h'.pool.buckets| == BUCKETS && h'.pool.buckets[b] != NULL && NewPage(h.pool.infos, h'.pool.infos, h'.pool.buckets[b], p)
    ensures ok ==> g'.runs == g.runs && g'.v.owned == g.v.owned
    ensures env.s1 != NULL ==> g'.lost == g.lost
  {
    var at := if InPage(b) then p else env.record;
    if at == NULL {
      h', g' := FreeAgain(h, p, env, g);
      return false, h', g';
    }
    RecordFree(g.v, h.pool.infos, g.live, p);
    AdminSmall(b);
    h', g' := Carve(h, b, p, at, env.junk[..AdminWords(b)], g);
    ok := true;
  }

  /** `ifree(pp)` when there is no memory for the record. */
  method FreeAgain(h: Heap, p: int, env: Env, ghost g: Shadow) returns (h': Heap, ghost g': Shadow)
    requires Sound(h, g) && p * PAGE in g.live && EntryAt(g.v.pages, p) == First && p in g.v.owned && SparesOK(h.holders, env)
    ensures Sound(h', g') && g'.live == g.live - {p * PAGE} && h'.cache == h.cache && h'.pool == h.pool && g'.q == g.q
    ensures h'.holders.Keys <= h.holders.Keys + {env.s1, env.s2} && g'.v.owned <= g.v.owned
    ensures g.live[p * PAGE].room == PAGE ==> PagesBack(h.px != NULL || env.s1 != NULL, g, g', p, 1, h.cache)
    ensures env.s1 != NULL ==> g'.lost == g.lost
  {
    h', g' := FreeFound(h, p, env.s1, g);
    h' := TopUp(h', env.s2, g');
  }

  method FreeFound(h: Heap, p: int, spare: Addr, ghost g: Shadow) returns (h': Heap, ghost g': Shadow)
    requires Sound(h, g) && p * PAGE in g.live && EntryAt(g.v.pages, p) == First && p in g.v.owned && SpareAnswer(h.holders, spare)
    ensures Sound(h', g') && g'.live == g.live - {p * PAGE} && h'.cache == h.cache && h'.pool == h.pool && g'.q == g.q
    ensures h'.holders.Keys <= h.holders.Keys + {spare} && g'.v.owned <= g.v.owned
    ensures g.live[p * PAGE].room == PAGE ==> PagesBack(h.px != NULL || spare != NULL, g, g', p, 1, h.cache)
    ensures spare != NULL ==> g'.lost == g.lost
  {
    var n, entry;
    h', entry := LookAt(h, p, g);
    h', n, g' := FreePages(h', p, spare, g);
  }

  // ----- malloc -----

  /** The room that a request gets: the smallest chunk that holds it, or whole pages. */
  ghost predicate RoomFor(size: int, room: int) {
    if size <= MAXSIZE then forall b: nat :: BestBucket(size, b) ==> room == Pow2(ShiftOf(b)) else room == PageRound(size)
  }

  /** One new block, for `size` bytes at `ptr`; nothing else changed hands. */
  ghost predicate Got(live: map<int, Req>, live': map<int, Req>, ptr: int, size: int) {
    (ptr != 0 && ptr !in live && ptr in live' && live' == live[ptr := live'[ptr]] && live'[ptr].want == size && RoomFor(size, live'[ptr].room)) == true
  }

  /** The block at `ptr` is a chunk of the page of record `at`, and no other record changed. */
  ghost predicate TookFrom(infos: map<Addr, Pginfo>, infos': map<Addr, Pginfo>, at: Addr, ptr: int) {
    (at in infos && at in infos' && infos' == infos[at := infos'[at]] && InUse(infos'[at]) && ptr / PAGE == infos[at].page) == true
  }

  /** A chunk from the first page on list `b`. */
  method Cut(h: Heap, b: nat, size: int, ghost g: Shadow) returns (ptr: int, h': Heap, ghost g': Shadow)
    requires Sound(h, g) && BestBucket(size, b) && 0 <= size <= MAXSIZE && |h.pool.buckets| == BUCKETS && h.pool.buckets[b] != NULL
    ensures Sound(h', g') && Got(g.live, g'.live, ptr, size) && h' == h.(pool := h'.pool) && g'.lost == g.lost
    ensures g'.v == g.v && g'.runs == g.runs && TookFrom(h.pool.infos, h'.pool.infos, h.pool.buckets[b], ptr)
  {
    var pool, at, k;
    ghost var q;
    pool, at, k, q := TakeChunk(h.pool, b, g.q);
    var info := h.pool.infos[at];
    ptr := ChunkAddr(info, k);
    h', g' := h.(pool := pool), g.(q := q, live := g.live[ptr := Req(size, Pow2(info.shift))]);
    InfoWithBit(info, k, false);
    SizeFits(info, b);
    ChunkMoved(g.v, h.pool.infos, g.live, at, WithBit(info, k, false), k, g'.live, size);
    NotNull(g.v, h.pool.infos, g.live, at, k);
    assert LiveChunk(WithBit(info, k, false), k);
    ChunkPageOf(g.v, h.pool.infos, g.live, at, k);
    forall c: nat | BestBucket(size, c) ensures Pow2(info.shift) == Pow2(ShiftOf(c)) {
      BestBucketUnique(size, b, c);
    }
  }

  lemma SizeFits(info: Pginfo, b: nat)
    requires InfoOK(info) && BucketOf(info) == b
    ensures info.size == SizeOf(b) && info.shift == ShiftOf(b)
  {
  }

  lemma ChunkPageOf(v: View, infos: map<Addr, Pginfo>, live: map<int, Req>, at: Addr, k: int)
    requires Consistent(v, infos, live) && at in infos && 0 <= k < Slots(BucketOf(infos[at]))
    ensures ChunkAddr(infos[at], k) / PAGE == infos[at].page
  {
    InsidePage(infos[at], k);
  }

  lemma NotNull(v: View, infos: map<Addr, Pginfo>, live: map<int, Req>, at: Addr, k: int)
    requires Consistent(v, infos, live) && at in infos && 0 <= k
    ensures ChunkAddr(infos[at], k) > 0
  {
    var info := infos[at];
    assert RESERVED <= info.page;
    ShiftUp(k, info.shift);
  }

  /** There is no chunk for `size` bytes: no page of that size has one free, and no page or no record for it could be had. */
  ghost predicate BytesRefused(infos: map<Addr, Pginfo>, g: Shadow, size: int, env: Env) {
    (exists b: nat {:trigger BestBucket(size, b)} :: BestBucket(size, b) && !InStock(infos, b)
       && (PagesRefused(g, 1, env.run, env.region) || (!InPage(b) && env.record == NULL))) == true
  }

  /** A chunk in stock is taken without touching pages or the free list; otherwise its page came from malloc_pages. */
  ghost predicate BytesFrom(infos: map<Addr, Pginfo>, g: Shadow, g': Shadow, ptr: int, size: int, run: int) {
    (forall b: nat {:trigger BestBucket(size, b)} :: BestBucket(size, b) ==>
       if InStock(infos, b) then g'.v == g.v && g'.runs == g.runs else CameFrom(g, g', ptr / PAGE, 1, run)) == true
  }

  /** malloc_bytes */
  method MallocBytes(h: Heap, size: int, env: Env, ghost g: Shadow) returns (ptr: int, h': Heap, ghost g': Shadow)
    requires Sound(h, g) && 0 <= size <= MAXSIZE && EnvOK(h, g, 0, env)
    ensures Sound(h', g') && h'.cache == h.cache && h'.holders.Keys <= h.holders.Keys + {env.s1, env.s2}
    ensures ptr == 0 <==> BytesRefused(h.pool.infos, g, size, env)
    ensures if ptr == 0 then g'.live == g.live else Got(g.live, g'.live, ptr, size) && BytesFrom(h.pool.infos, g, g', ptr, size, env.run)
    ensures AllInUse(h.pool.infos) ==> AllInUse(h'.pool.infos)
    ensures env.s1 != NULL ==> g'.lost == g.lost
  {
    var b := FindBucket(size);
    PoolSize(h, g);
    InStockIff(h.pool, b, g.q);
    if h.pool.buckets[b] == NULL {
      ptr, h', g' := CutNew(h, b, size, env, g);
    } else {
      ptr, h', g' := Cut(h, b, size, g);
      TookInUse(h.pool.infos, h'.pool.infos, h.pool.buckets[b], ptr);
    }
    OnlyBucket(h.pool.infos, g, g', ptr, size, b, env);
  }

  /** A chunk of a page that is made for it. */
  method CutNew(h: Heap, b: nat, size: int, env: Env, ghost g: Shadow) returns (ptr: int, h': Heap, ghost g': Shadow)
    requires Sound(h, g) && BestBucket(size, b) && 0 <= size <= MAXSIZE && EnvOK(h, g, 0, env)
    ensures Sound(h', g') && h'.cache == h.cache && h'.holders.Keys <= h.holders.Keys + {env.s1, env.s2}
    ensures ptr == 0 <==> PagesRefused(g, 1, env.run, env.region) || (!InPage(b) && env.record == NULL)
    ensures if ptr == 0 then g'.live == g.live else Got(g.live, g'.live, ptr, size) && CameFrom(g, g', ptr / PAGE, 1, env.run)
    ensures AllInUse(h.pool.infos) ==> AllInUse(h'.pool.infos)
    ensures env.s1 != NULL ==> g'.lost == g.lost
  {
    var ok, h1;
    ghost var g1;
    ok, h1, g1 := MakeChunks(h, b, env, g);
    if !ok { return 0, h1, g1; }
    ghost var at := h1.pool.buckets[b];
    ptr, h', g' := Cut(h1, b, size, g1);
    MadeInUse(h.pool.infos, h1.pool.infos, h'.pool.infos, at, ptr);
  }

  lemma TookInUse(infos: map<Addr, Pginfo>, infos': map<Addr, Pginfo>, at: Addr, ptr: int)
    requires TookFrom(infos, infos', at, ptr)
    ensures AllInUse(infos) ==> AllInUse(infos')
  {
    if AllInUse(infos) { AllInUsePut(infos, at, infos'[at]); }
  }

  lemma MadeInUse(infos: map<Addr, Pginfo>, infos1: map<Addr, Pginfo>, infos': map<Addr, Pginfo>, at: Addr, ptr: int)
    requires at in infos1 && infos1 == infos[at := infos1[at]] && TookFrom(infos1, infos', at, ptr)
    ensures AllInUse(infos) ==> AllInUse(infos')
  {
    assert infos' == infos[at := infos'[at]];
    if AllInUse(infos) { AllInUsePut(infos, at, infos'[at]); }
  }

  /** There is one best bucket. */
  lemma OnlyBucket(infos: map<Addr, Pginfo>, g: Shadow, g': Shadow, ptr: int, size: int, b: nat, env: Env)
    requires BestBucket(size, b)
    ensures BytesRefused(infos, g, size, env) <==> !InStock(infos, b) && (PagesRefused(g, 1, env.run, env.region) || (!InPage(b) && env.record == NULL))
    ensures BytesFrom(infos, g, g', ptr, size, env.run) <==>
      if InStock(infos, b) then g'.v == g.v && g'.runs == g.runs else CameFrom(g, g', ptr / PAGE, 1, env.run)
  {
    forall c: nat | BestBucket(size, c) ensures c == b {
      BestBucketUnique(size, b, c);
    }
  }

  lemma PoolSize(h: Heap, g: Shadow)
    requires Sound(h, g)
    ensures |h.pool.buckets| == BUCKETS
  {
  }

  const SIZE_MAX: int := 0xFFFF_FFFF_FFFF_FFFF

  /** When malloc answers null. */
  ghost predicate Refused(infos: map<Addr, Pginfo>, g: Shadow, size: int, env: Env) {
    (SIZE_MAX - PAGE < size || if size <= MAXSIZE then BytesRefused(infos, g, size, env) else PagesRefused(g, PagesFor(size), env.run, env.region)) == true
  }

  /** Where a new block came from. */
  ghost predicate Origin(infos: map<Addr, Pginfo>, g: Shadow, g': Shadow, ptr: int, size: int, run: int) {
    (if size <= MAXSIZE then BytesFrom(infos, g, g', ptr, size, run) else CameFrom(g, g', ptr / PAGE, PagesFor(size), run)) == true
  }

  /** malloc is not refused when the system gives pages, directory pages and a record. */
  lemma NotRefused(infos: map<Addr, Pginfo>, g: Shadow, size: int, env: Env)
    requires 0 <= size <= SIZE_MAX - PAGE && env.run != 0 && env.region != NULL && env.record != NULL
    ensures !Refused(infos, g, size, env)
  {
  }

  /** imalloc */
  method IMalloc(h: Heap, size: int, env: Env, ghost g: Shadow) returns (ptr: int, h': Heap, ghost g': Shadow)
    requires Sound(h, g) && 0 <= size && EnvOK(h, g, size, env) && FirstSpareOK(h.holders, env)
    ensures Sound(h', g') && h'.cache == h.cache && h'.holders.Keys <= h.holders.Keys + {env.s0, env.s1, env.s2}
    ensures ptr == 0 <==> Refused(h.pool.infos, g, size, env)
    ensures if ptr == 0 then g'.live == g.live else Got(g.live, g'.live, ptr, size) && Origin(h.pool.infos, g, g', ptr, size, env.run)
    ensures AllInUse(h.pool.infos) ==> AllInUse(h'.pool.infos)
    ensures env.s1 != NULL ==> g'.lost == g.lost
  {
    RefillSound(h, env.s0, g);
    var h1 := Refill(h, env.s0);
    if size > SIZE_MAX - PAGE {
      ptr, h', g' := 0, h1, g;
    } else if size <= MAXSIZE {
      EnvLater(h, h1, g, size, env);
      ptr, h', g' := MallocBytes(h1, size, env, g);
      assert h1.pool == h.pool;
    } else {
      ptr, h', g' := MallocRun(h1, size, env.run, env.region, g);
    }
  }

  /** imalloc for more than a chunk can hold. */
  method MallocRun(h: Heap, size: int, run: int, region: Addr, ghost g: Shadow) returns (ptr: int, h': Heap, ghost g': Shadow)
    requires Sound(h, g) && MAXSIZE < size && MapAnswer(h.dirs, g.v, run, PagesFor(size), region)
    ensures Sound(h', g') && h'.cache == h.cache && h'.pool == h.pool && h'.holders.Keys <= h.holders.Keys && g'.lost == g.lost
    ensures ptr == 0 <==> PagesRefused(g, PagesFor(size), run, region)
    ensures if ptr == 0 then g'.live == g.live else Got(g.live, g'.live, ptr, size) && CameFrom(g, g', ptr / PAGE, PagesFor(size), run)
  {
    PageBlock(size);
    var n, p := PagesFor(size), 0;
    p, h', g' := MallocPages(h, n, size, run, region, g);
    ptr := p * PAGE;
    assert ptr / PAGE == p;
  }

  lemma PageBlock(size: int)
    requires MAXSIZE < size
    ensures 1 <= PagesFor(size) && size <= PagesFor(size) * PAGE == PageRound(size)
  {
  }

  lemma EnvLater(h: Heap, h1: Heap, g: Shadow, size: int, env: Env)
    requires EnvOK(h, g, size, env) && FirstSpareOK(h.holders, env) && h1 == Refill(h, env.s0) && size <= MAXSIZE
    ensures EnvOK(h1, g, 0, env)
  {
  }

  // ----- free -----

  /** `ptr` points into the chunks where a page keeps its own pginfo. */
  ghost predicate Admin(pages: map<int, Entry>, infos: map<Addr, Pginfo>, ptr: int) {
    0 <= ptr && match EntryAt(pages, ptr / PAGE)
      case Chunk(a) => a in infos && LowClear(ptr % PAGE, infos[a].shift) && Shr(ptr % PAGE, infos[a].shift) < Stolen(BucketOf(infos[a]))
      case _ => false
  }

  /** `ptr` and nothing else came back; a pointer that is no block changes nothing. */
  ghost predicate Gave(live: map<int, Req>, live': map<int, Req>, ptr: int) {
    (live' == live - {ptr}) == true
  }

  lemma GaveNothing(live: map<int, Req>, ptr: int)
    requires ptr !in live
    ensures Gave(live, live, ptr)
  {
  }

  /**
    Why a page's own records are off limits: to free_bytes a chunk that the record takes up looks like a live one, and
    marking it free breaks the record.
   */
  lemma AdminBreaks(info: Pginfo, k: int)
    requires InfoOK(info) && 0 <= k < Stolen(BucketOf(info))
    ensures Words(info.bits) && k < BITS * |info.bits| && !BitAt(info.bits, k) && !InfoOK(WithBit(info, k, true))
  {
    Layout(BucketOf(info));
    assert BitAt(PutBit(info.bits, k, true), k);
  }

  /** Some block lies in page `p`. */
  ghost predicate Shared(live: map<int, Req>, p: int) {
    (exists x {:trigger x in live} :: x in live && x / PAGE == p) == true
  }

  /** Page `p` stays a page of chunks, with its record at `at`, as long as a block lies in it; otherwise it is none any more, and the record is gone. */
  ghost predicate PageFate(live': map<int, Req>, pages': map<int, Entry>, infos': map<Addr, Pginfo>, p: int, at: Addr) {
    (if Shared(live', p) then EntryAt(pages', p) == Chunk(at) && at in infos' && InUse(infos'[at])
     else at !in infos' && !EntryAt(pages', p).Chunk?) == true
  }

  /** No page came back while a block lies in `p`, and otherwise that one did. */
  ghost predicate ChunkBack(h: Heap, g: Shadow, g': Shadow, p: int, spare: Addr) {
    (if Shared(g'.live, p) then PagesStay(g, g') else PagesBack(h.px != NULL || spare != NULL, g, g', p, 1, h.cache)) == true
  }

  ghost predicate PagesStay(g: Shadow, g': Shadow) {
    (g'.runs == g.runs && g'.v.owned == g.v.owned && g'.lost == g.lost) == true
  }

  /** Other blocks lie in the page of a live chunk exactly when another of its chunks is live. */
  lemma OthersShare(v: View, infos: map<Addr, Pginfo>, live: map<int, Req>, at: Addr, k: int)
    requires Consistent(v, infos, live) && at in infos && LiveChunk(infos[at], k) && 0 <= k
    ensures Shared(live - {ChunkAddr(infos[at], k)}, infos[at].page) <==> exists j :: j != k && LiveChunk(infos[at], j)
  {
    var info, live' := infos[at], live - {ChunkAddr(infos[at], k)};
    assert EntryAt(v.pages, info.page) == Chunk(at);
    Layout(BucketOf(info));
    InsidePage(info, k);
    if Shared(live', info.page) {
      var x :| x in live' && x / PAGE == info.page;
      assert Block(v.pages, infos, x);
      var j := Shr(x % PAGE, info.shift);
      ShiftBack(x % PAGE, info.shift);
      assert ChunkAddr(info, j) == x;
    }
    if exists j :: j != k && LiveChunk(info, j) {
      var j :| j != k && LiveChunk(info, j);
      InsidePage(info, j);
      var x := ChunkAddr(info, j);
      assert x in live <==> Block(v.pages, infos, x);
      assert x in live';
    }
  }

  /** A page whose record is gone is no page of chunks. */
  lemma RecordGone(v: View, infos: map<Addr, Pginfo>, live: map<int, Req>, v': View, live': map<int, Req>, at: Addr)
    requires Consistent(v, infos, live) && at in infos && Consistent(v', infos - {at}, live')
    ensures !EntryAt(v'.pages, infos[at].page).Chunk?
  {
    var p := infos[at].page;
    assert EntryAt(v.pages, p) == Chunk(at);
    NotItsPage(v, infos, live, v', live', at, RecordOf(EntryAt(v'.pages, p)));
  }

  function RecordOf(e: Entry): Addr { if e.Chunk? then e.info else NULL }

  lemma NotItsPage(v: View, infos: map<Addr, Pginfo>, live: map<int, Req>, v': View, live': map<int, Req>, at: Addr, a: Addr)
    requires Consistent(v, infos, live) && at in infos && Consistent(v', infos - {at}, live')
    ensures EntryAt(v'.pages, infos[at].page) != Chunk(a)
  {
    assert a in infos ==> EntryAt(v.pages, infos[a].page) == Chunk(a);
  }

  /** A live chunk that comes home is no block any more, and neighbours in its page are those on its record. */
  lemma ChunkHome(v: View, infos: map<Addr, Pginfo>, live: map<int, Req>, at: Addr, k: int, ptr: int, live': map<int, Req>)
    requires Consistent(v, infos, live) && at in infos && InfoOK(infos[at]) && LiveChunk(infos[at], k) && 0 <= k
    requires ptr == ChunkAddr(infos[at], k) && live' == live - {ptr} && Words(infos[at].bits) && k < BITS * |infos[at].bits|
    ensures Consistent(v, infos[at := WithBit(infos[at], k, true)], live') && ptr in live
    ensures if forall j :: j != k ==> !LiveChunk(infos[at], j) then !Shared(live', infos[at].page) && (forall j :: !LiveChunk(WithBit(infos[at], k, true), j))
            else Shared(live', infos[at].page) && InUse(WithBit(infos[at], k, true))
  {
    var info := infos[at];
    InfoWithBit(info, k, true);
    SizeFits(info, BucketOf(info));
    ChunkMoved(v, infos, live, at, WithBit(info, k, true), k, live', 0);
    OthersShare(v, infos, live, at, k);
    if exists j :: j != k && LiveChunk(info, j) { StillInUse(info, k); }
  }

  /** A live chunk comes home, and its page with it when it was the last one out. */
  method GiveChunk(h: Heap, ptr: int, at: Addr, k: int, env: Env, ghost g: Shadow) returns (h': Heap, ghost g': Shadow)
    requires Sound(h, g) && at in h.pool.infos && LiveChunk(h.pool.infos[at], k) && 0 <= k && ptr == ChunkAddr(h.pool.infos[at], k)
    requires SparesOK(h.holders, env)
    ensures Sound(h', g') && h'.cache == h.cache && Gave(g.live, g'.live, ptr) && h'.holders.Keys <= h.holders.Keys + {env.s1, env.s2}
    ensures PageFate(g'.live, g'.v.pages, h'.pool.infos, h.pool.infos[at].page, at) && ChunkBack(h, g, g', h.pool.infos[at].page, env.s1)
    ensures AllInUse(h.pool.infos) ==> AllInUse(h'.pool.infos)
    ensures env.s1 != NULL ==> g'.lost == g.lost
  {
    var pool, emptied;
    ghost var q;
    InfoIn(h.pool, at, g.q);
    pool, emptied, q := ReturnChunk(h.pool, at, k, g.q);
    ghost var live := g.live - {ptr};
    ChunkHome(g.v, h.pool.infos, g.live, at, k, ptr, live);
    if !emptied {
      PageKept(h, g, at, pool, q, live, env.s1);
      h', g' := h.(pool := pool), g.(q := q, live := live);
    } else {
      h', g' := GivePage(h, at, WithBit(h.pool.infos[at], k, true), pool, env, g, q, live);
      PageGone(h, g, g', h'.pool.infos, h.pool.infos[at].page, at, env.s1);
    }
    PutOrDrop(h.pool.infos, h'.pool.infos, at);
  }

  lemma PageKept(h: Heap, g: Shadow, at: Addr, pool: Pool, q: Queues, live: map<int, Req>, spare: Addr)
    requires Sound(h, g) && at in h.pool.infos && PoolOK(pool, q) && Consistent(g.v, pool.infos, live)
    requires at in pool.infos && InUse(pool.infos[at]) && Shared(live, h.pool.infos[at].page)
    ensures Sound(h.(pool := pool), g.(q := q, live := live))
    ensures PageFate(live, g.v.pages, pool.infos, h.pool.infos[at].page, at)
    ensures ChunkBack(h, g, g.(q := q, live := live), h.pool.infos[at].page, spare)
  {
    ChunkPage(g.v, h.pool.infos, g.live, at);
  }

  lemma PageGone(h: Heap, g: Shadow, g': Shadow, infos': map<Addr, Pginfo>, p: int, at: Addr, spare: Addr)
    requires !Shared(g'.live, p) && at !in infos' && !EntryAt(g'.v.pages, p).Chunk?
    requires PagesBack(h.px != NULL || spare != NULL, g, g', p, 1, h.cache)
    ensures PageFate(g'.live, g'.v.pages, infos', p, at) && ChunkBack(h, g, g', p, spare)
  {
  }

  lemma StillInUse(info: Pginfo, k: int)
    requires InfoOK(info) && LiveChunk(info, k) && exists j :: j != k && LiveChunk(info, j)
    ensures Words(info.bits) && 0 <= k < BITS * |info.bits| && InUse(WithBit(info, k, true))
  {
    InfoWithBit(info, k, true);
    var j :| j != k && LiveChunk(info, j);
    assert LiveChunk(WithBit(info, k, true), j);
  }

  lemma PutOrDrop(infos: map<Addr, Pginfo>, infos': map<Addr, Pginfo>, at: Addr)
    requires if at in infos' then infos' == infos[at := infos'[at]] && InUse(infos'[at]) else infos' == infos - {at}
    ensures AllInUse(infos) ==> AllInUse(infos')
  {
    if AllInUse(infos) {
      if at in infos' { AllInUsePut(infos, at, infos'[at]); } else { AllInUseDrop(infos, at); }
    }
  }

  /** The page of a record without live chunks becomes a run again, and is freed. */
  method GivePage(h: Heap, at: Addr, info: Pginfo, pool: Pool, env: Env, ghost g: Shadow, ghost q: Queues, ghost live: map<int, Req>)
    returns (h': Heap, ghost g': Shadow)
    requires Sound(h, g) && at in h.pool.infos && Consistent(g.v, h.pool.infos[at := info], live) && (forall k :: !LiveChunk(info, k))
    requires info.page == h.pool.infos[at].page && PoolOK(pool, q) && pool.infos == h.pool.infos - {at} && SparesOK(h.holders, env)
    ensures Sound(h', g') && h'.cache == h.cache && g'.live == live && h'.holders.Keys <= h.holders.Keys + {env.s1, env.s2}
    ensures h'.pool == pool && !EntryAt(g'.v.pages, info.page).Chunk? && PagesBack(h.px != NULL || env.s1 != NULL, g, g', info.page, 1, h.cache)
    ensures env.s1 != NULL ==> g'.lost == g.lost
  {
    var p := info.page;
    ChunkPage(g.v, h.pool.infos, g.live, at);
    var dirs := SetEntry(h.dirs, p, First, g.v);
    ghost var v := g.v.(pages := g.v.pages[p := First]);
    StockedEntry(h.dirs.mem, dirs.mem, g.v.pages, g.runs, p, First);
    AccountedEntry(g.v.pages, g.runs, g.lost, p, First);
    BecomesRun(g.v, v, h.pool.infos[at := info], live, p, at);
    assert h.pool.infos[at := info] - {at} == pool.infos;
    PageNotLive(g.v, h.pool.infos[at := info], live, p, at);
    h', g' := h.(dirs := dirs, pool := pool), g.(v := v, q := q, live := live[p * PAGE := Req(PAGE, PAGE)]);
    ghost var g1 := g';
    h', g' := FreeAgain(h', p, env, g');
    PutDrop(live, p * PAGE, Req(PAGE, PAGE));
    PagesBackFrom(h.px != NULL || env.s1 != NULL, g, g1, g', p, 1, h.cache);
    RecordGone(g.v, h.pool.infos, g.live, g'.v, live, at);
  }

  lemma ChunkPage(v: View, infos: map<Addr, Pginfo>, live: map<int, Req>, at: Addr)
    requires Consistent(v, infos, live) && at in infos
    ensures EntryAt(v.pages, infos[at].page) == Chunk(at) && infos[at].page in v.owned && RESERVED <= infos[at].page
  {
    var p := infos[at].page;
    assert EntryAt(v.pages, p) == Chunk(at);
  }

  lemma PageNotLive(v: View, infos: map<Addr, Pginfo>, live: map<int, Req>, p: int, at: Addr)
    requires Consistent(v, infos, live) && EntryAt(v.pages, p) == Chunk(at) && at in infos && forall k :: !LiveChunk(infos[at], k)
    ensures p * PAGE !in live
  {
    var ptr := p * PAGE;
    assert ptr / PAGE == p;
    assert ptr in live <==> Block(v.pages, infos, ptr);
  }

  /** free_bytes for a pointer into the page of record `at` */
  method FreeBytes(h: Heap, ptr: int, at: Addr, env: Env, ghost g: Shadow) returns (h': Heap, ghost g': Shadow)
    requires Sound(h, g) && 0 <= ptr && EntryAt(g.v.pages, ptr / PAGE) == Chunk(at) && at in h.pool.infos && !Admin(g.v.pages, h.pool.infos, ptr)
    requires SparesOK(h.holders, env)
    ensures Sound(h', g') && h'.cache == h.cache && Gave(g.live, g'.live, ptr) && h'.holders.Keys <= h.holders.Keys + {env.s1, env.s2}
    ensures if ptr in g.live then PageFate(g'.live, g'.v.pages, h'.pool.infos, ptr / PAGE, at) && ChunkBack(h, g, g', ptr / PAGE, env.s1)
            else PagesStay(g, g')
    ensures AllInUse(h.pool.infos) ==> AllInUse(h'.pool.infos)
    ensures env.s1 != NULL ==> g'.lost == g.lost
  {
    var info := h.pool.infos[at];
    var i := Shr(ptr % PAGE, info.shift);
    h', g' := h, g;
    ChunkOf(g.v, h.pool.infos, g.live, ptr, at);
    if !LowClear(ptr % PAGE, info.shift) || BitAt(info.bits, i) {
      GaveNothing(g.live, ptr);
      return;
    }
    h', g' := GiveChunk(h, ptr, at, i, env, g);
  }

  /** What a pointer into a page of chunks names. */
  lemma ChunkOf(v: View, infos: map<Addr, Pginfo>, live: map<int, Req>, ptr: int, at: Addr)
    requires Consistent(v, infos, live) && 0 <= ptr && EntryAt(v.pages, ptr / PAGE) == Chunk(at) && at in infos && !Admin(v.pages, infos, ptr)
    ensures infos[at].page == ptr / PAGE
    ensures var info, i := infos[at], Shr(ptr % PAGE, infos[at].shift);
      if !LowClear(ptr % PAGE, info.shift) || BitAt(info.bits, i) then ptr !in live
      else LiveChunk(info, i) && ptr == ChunkAddr(info, i)
  {
    var info, i := infos[at], Shr(ptr % PAGE, infos[at].shift);
    assert info.page == ptr / PAGE;
    assert ptr in live <==> Block(v.pages, infos, ptr);
    if LowClear(ptr % PAGE, info.shift) {
      ShiftBack(ptr % PAGE, info.shift);
      SlotInPage(info, i, ptr % PAGE);
    }
  }

  lemma SlotInPage(info: Pginfo, i: nat, off: int)
    requires InfoOK(info) && off == i * Pow2(info.shift) && off < PAGE
    ensures i < Slots(BucketOf(info))
  {
    var b := BucketOf(info);
    Layout(b);
    if Slots(b) <= i {
      NotShorter(Slots(b), i, Pow2(info.shift));
    }
  }

  lemma NotShorter(k: int, l: int, size: int)
    requires k <= l && 0 <= size
    ensures size * k <= l * size
  {
  }

  /**
    The pages that came back with `ptr`: those of a block of pages; with a chunk its page, if no other block lies in it;
    and none with a pointer that is no block.
   */
  ghost predicate Vacated(h: Heap, g: Shadow, h': Heap, g': Shadow, ptr: int, spare: Addr) {
    var e, p := EntryAt(g.v.pages, ptr / PAGE), ptr / PAGE;
    (if ptr !in g.live then PagesStay(g, g')
     else if e.Chunk? then PageFate(g'.live, g'.v.pages, h'.pool.infos, p, e.info) && ChunkBack(h, g, g', p, spare)
     else PagesBack(h.px != NULL || spare != NULL, g, g', p, g.live[ptr].room / PAGE, h.cache)) == true
  }

  /** ifree, for any address in a page that the directory knows, other than a page's own records. */
  method IFree(h: Heap, ptr: int, env: Env, ghost g: Shadow) returns (h': Heap, ghost g': Shadow)
    requires Sound(h, g) && 0 <= ptr && ptr / PAGE in g.v.owned && !Admin(g.v.pages, h.pool.infos, ptr)
    requires SparesOK(h.holders, env) && FirstSpareOK(h.holders, env)
    ensures Sound(h', g') && h'.cache == h.cache && Gave(g.live, g'.live, ptr)
    ensures h'.holders.Keys <= h.holders.Keys + {env.s0, env.s1, env.s2}
    ensures Vacated(h, g, h', g', ptr, env.s1) && (AllInUse(h.pool.infos) ==> AllInUse(h'.pool.infos))
    ensures env.s1 != NULL ==> g'.lost == g.lost
  {
    var entry;
    h', entry := LookAt(h, ptr / PAGE, g);
    ghost var h1 := h';
    h', g' := FreeAt(h', ptr, entry, env, g);
    ghost var h2 := h';
    h' := TopUp(h', env.s0, g');
    VacatedSame(h, h1, g, h2, h', g', ptr, env.s1);
  }

  lemma VacatedSame(h: Heap, h1: Heap, g: Shadow, h2: Heap, h': Heap, g': Shadow, ptr: int, spare: Addr)
    requires Vacated(h1, g, h2, g', ptr, spare) && h1.px == h.px && h1.cache == h.cache && h2.pool.infos == h'.pool.infos
    ensures Vacated(h, g, h', g', ptr, spare)
  {
  }

  /** The entry of an owned page, through a lookup. */
  method LookAt(h: Heap, p: int, ghost g: Shadow) returns (h': Heap, entry: Entry)
    requires Sound(h, g) && p in g.v.owned
    ensures Sound(h', g) && h' == h.(dirs := h'.dirs) && entry == EntryAt(g.v.pages, p)
  {
    var dirs, pi;
    ghost var j: nat := 0;
    dirs, pi, j := Enter(h.dirs, p, g.v);
    EntryRead(h.dirs.mem, h.dirs.head, g.v, j, p);
    h', entry := h.(dirs := dirs), dirs.mem[pi].base[PiOff(p)];
  }

  /** free_pages for the block at `ptr`, the first byte of page `p`. */
  method FreeRun(h: Heap, p: int, ptr: int, env: Env, ghost g: Shadow) returns (h': Heap, ghost g': Shadow)
    requires Sound(h, g) && ptr == p * PAGE && ptr in g.live && EntryAt(g.v.pages, p) == First && SparesOK(h.holders, env)
    ensures Sound(h', g') && h'.cache == h.cache && Gave(g.live, g'.live, ptr) && h'.holders.Keys <= h.holders.Keys + {env.s1, env.s2}
    ensures h'.pool == h.pool && PagesBack(h.px != NULL || env.s1 != NULL, g, g', p, g.live[ptr].room / PAGE, h.cache)
    ensures env.s1 != NULL ==> g'.lost == g.lost
  {
    var n;
    h', n, g' := FreePages(h, p, env.s1, g);
    assert n == g.live[ptr].room / PAGE;
  }

  /** The choice between free_pages and free_bytes, by the entry of the page. */
  method FreeAt(h: Heap, ptr: int, entry: Entry, env: Env, ghost g: Shadow) returns (h': Heap, ghost g': Shadow)
    requires Sound(h, g) && 0 <= ptr && entry == EntryAt(g.v.pages, ptr / PAGE) && !Admin(g.v.pages, h.pool.infos, ptr) && SparesOK(h.holders, env)
    ensures Sound(h', g') && h'.cache == h.cache && Gave(g.live, g'.live, ptr) && h'.holders.Keys <= h.holders.Keys + {env.s1, env.s2}
    ensures Vacated(h, g, h', g', ptr, env.s1) && (AllInUse(h.pool.infos) ==> AllInUse(h'.pool.infos))
    ensures env.s1 != NULL ==> g'.lost == g.lost
  {
    EntryMeans(g.v, h.pool.infos, g.live, ptr);
    if entry.Chunk? {
      h', g' := FreeBytes(h, ptr, entry.info, env, g);
    } else if entry == First && ptr % PAGE == 0 {
      h', g' := FreeRun(h, ptr / PAGE, ptr, env, g);
    } else {
      GaveNothing(g.live, ptr);
      h', g' := h, g;
    }
  }

  lemma EntryMeans(v: View, infos: map<Addr, Pginfo>, live: map<int, Req>, ptr: int)
    requires Consistent(v, infos, live) && 0 <= ptr
    ensures var e := EntryAt(v.pages, ptr / PAGE);
      && (e.Chunk? ==> e.info in infos)
      && (!e.Chunk? ==> (ptr in live <==> e == First && ptr % PAGE == 0))
  {
    assert ptr in live <==> Block(v.pages, infos, ptr);
  }

  // ----- realloc -----

  /** The bytes that the block at `ptr` can grow to. */
  ghost function Usable(pages: map<int, Entry>, infos: map<Addr, Pginfo>, live: map<int, Req>, ptr: int): int
    requires ptr in live
  {
    var e := EntryAt(pages, ptr / PAGE);
    if e.Chunk? && e.info in infos then infos[e.info].size else live[ptr].room
  }

  lemma Resized(v: View, infos: map<Addr, Pginfo>, live: map<int, Req>, ptr: int, size: int)
    requires Consistent(v, infos, live) && ptr in live && 0 <= size <= Usable(v.pages, infos, live, ptr)
    ensures Consistent(v, infos, live[ptr := Req(size, live[ptr].room)])
  {
    var live' := live[ptr := Req(size, live[ptr].room)];
    forall x ensures x in live' <==> Block(v.pages, infos, x) {
      assert x in live <==> Block(v.pages, infos, x);
    }
    forall x | x in live' ensures Fits(v.pages, infos, x, live'[x]) {
      assert Fits(v.pages, infos, x, live[x]) && Block(v.pages, infos, x);
      if x == ptr && EntryAt(v.pages, x / PAGE).Chunk? {
        SizesPositive(infos[EntryAt(v.pages, x / PAGE).info]);
      }
    }
  }

  lemma LiveEntry(v: View, infos: map<Addr, Pginfo>, live: map<int, Req>, ptr: int)
    requires Consistent(v, infos, live) && ptr in live
    ensures 0 <= ptr && ptr / PAGE in v.owned && !Admin(v.pages, infos, ptr)
  {
    assert Block(v.pages, infos, ptr);
    var e := EntryAt(v.pages, ptr / PAGE);
  }

  /** The first half of irealloc: whether `ptr` is a block, and the bytes it can hold, found by scanning its pages or reading its record. */
  method Measure(h: Heap, ptr: int, ghost g: Shadow) returns (valid: bool, osize: int, chunk: bool, h': Heap)
    requires Sound(h, g) && 0 <= ptr && ptr / PAGE in g.v.owned
    ensures Sound(h', g) && h' == h.(dirs := h'.dirs) && h'.dirs.mem == h.dirs.mem
    ensures valid <==> ptr in g.live || Admin(g.v.pages, h.pool.infos, ptr)
    ensures ptr in g.live ==> osize == Usable(g.v.pages, h.pool.infos, g.live, ptr) && chunk == EntryAt(g.v.pages, ptr / PAGE).Chunk?
  {
    var dirs, pi;
    ghost var j: nat := 0;
    var p := ptr / PAGE;
    dirs, pi, j := Enter(h.dirs, p, g.v);
    EntryRead(h.dirs.mem, h.dirs.head, g.v, j, p);
    var entry := dirs.mem[pi].base[PiOff(p)];
    h', osize, chunk := h.(dirs := dirs), 0, entry.Chunk?;
    EntryMeans(g.v, h.pool.infos, g.live, ptr);
    if entry.Chunk? {
      valid, osize := MeasureChunk(h.pool, ptr, entry.info, h, g);
    } else {
      valid := entry == First && ptr % PAGE == 0;
      if valid {
        assert ptr == p * PAGE;
        ghost var n0 := RunAt(g.v, h.pool.infos, g.live, p);
        var n := CountRun(dirs.mem, dirs.head, pi, p, g.v, j, n0);
        osize := n * PAGE;
      }
    }
  }

  method MeasureChunk(pool: Pool, ptr: int, at: Addr, ghost h: Heap, ghost g: Shadow) returns (valid: bool, osize: int)
    requires Sound(h, g) && pool == h.pool && 0 <= ptr && EntryAt(g.v.pages, ptr / PAGE) == Chunk(at) && at in pool.infos
    ensures valid <==> ptr in g.live || Admin(g.v.pages, pool.infos, ptr)
    ensures osize == pool.infos[at].size
  {
    var info := pool.infos[at];
    if Admin(g.v.pages, pool.infos, ptr) {
      InfoIn(pool, at, g.q);
      AdminBreaks(info, Shr(ptr % PAGE, info.shift));
    } else {
      ChunkOf(g.v, pool.infos, g.live, ptr, at);
    }
    valid := LowClear(ptr % PAGE, info.shift) && !BitAt(info.bits, Shr(ptr % PAGE, info.shift));
    osize := info.size;
    assert ptr in g.live <==> Block(g.v.pages, pool.infos, ptr);
  }

  /** When irealloc leaves a block where it is. */
  predicate StaysPut(osize: int, chunk: bool, size: int) {
    size <= osize && if chunk then size > osize / 2 || osize == MINSIZE else size > osize - PAGE
  }

  /**
    When a block is the one that a request for `size` bytes would get: as many pages, or a chunk of the smallest size that
    holds it. For no bytes only a 16-byte chunk will do, not the malloc(0) chunk that such a request would get.
   */
  ghost predicate Suits(pages: map<int, Entry>, infos: map<Addr, Pginfo>, live: map<int, Req>, ptr: int, size: int) {
    (ptr in live && match EntryAt(pages, ptr / PAGE)
       case Chunk(a) => a in infos && if size == 0 then infos[a].size == 16 else BestBucket(size, BucketOf(infos[a]))
       case _ => PageRound(size) == live[ptr].room) == true
  }

  /** The test of irealloc keeps exactly the blocks that suit. */
  lemma StaysIffSuits(v: View, infos: map<Addr, Pginfo>, live: map<int, Req>, ptr: int, size: int)
    requires Consistent(v, infos, live) && ptr in live && 0 <= size
    ensures StaysPut(Usable(v.pages, infos, live, ptr), EntryAt(v.pages, ptr / PAGE).Chunk?, size) <==> Suits(v.pages, infos, live, ptr, size)
  {
    assert Block(v.pages, infos, ptr) && Fits(v.pages, infos, ptr, live[ptr]);
    var e := EntryAt(v.pages, ptr / PAGE);
    if e.Chunk? {
      var info := infos[e.info];
      SizeFits(info, BucketOf(info));
      ChunkStays(size, BucketOf(info));
    } else {
      RunStays(size, live[ptr].room);
    }
  }

  lemma RunStays(size: int, room: int)
    requires 0 <= size && 0 < room && room % PAGE == 0
    ensures StaysPut(room, false, size) <==> PageRound(size) == room
  {
  }

  lemma ChunkStays(size: int, b: nat)
    requires 0 <= size && IsBucket(b)
    ensures StaysPut(SizeOf(b), true, size) <==> if size == 0 then SizeOf(b) == 16 else BestBucket(size, b)
  {
    assert Pow2(3) == 8 && Pow2(4) == 16;
    if 4 < b {
      HalfSize(b);
      forall c | 4 <= c < b ensures SizeOf(c) <= SizeOf(b - 1) {
        if c < b - 1 { Pow2Rises(c, b - 1); }
      }
    }
  }

  lemma HalfSize(b: nat)
    requires 4 < b
    ensures SizeOf(b) == 2 * SizeOf(b - 1) && 16 < SizeOf(b)
  {
    Pow2Rises(4, b);
    assert Pow2(4) == 16;
  }

  /** The answers to the requests of a second operation are not those of the first. */
  ghost predicate EnvApart(env: Env, env2: Env) {
    && env2.s0 !in {env.s0, env.s1, env.s2} - {NULL} && env2.s1 !in {env.s0, env.s1, env.s2} - {NULL} && env2.s2 !in {env.s0, env.s1, env.s2} - {NULL}
  }

  /** irealloc: `env` answers the malloc in it, `env2` the free. */
  method IRealloc(h: Heap, ptr: int, size: int, env: Env, env2: Env, ghost g: Shadow) returns (r: int, h': Heap, ghost g': Shadow)
    requires Sound(h, g) && 0 <= size && 0 <= ptr && ptr / PAGE in g.v.owned && !Admin(g.v.pages, h.pool.infos, ptr)
    requires EnvOK(h, g, size, env) && FirstSpareOK(h.holders, env)
    requires SparesOK(h.holders, env2) && FirstSpareOK(h.holders, env2) && EnvApart(env, env2)
    ensures Sound(h', g') && h'.cache == h.cache
    ensures env.s1 != NULL && env2.s1 != NULL ==> g'.lost == g.lost
    ensures r == 0 ==> g'.live == g.live
    ensures ptr !in g.live ==> r == 0
    ensures r == ptr ==> ptr in g.live && g'.live == g.live[ptr := Req(size, g.live[ptr].room)]
    ensures r != 0 && r != ptr ==> ptr in g.live && exists mid :: Got(g.live, mid, r, size) && Gave(mid, g'.live, ptr)
    ensures ptr in g.live ==> (r == ptr <==> Suits(g.v.pages, h.pool.infos, g.live, ptr, size))
    ensures r == 0 <==> ptr !in g.live || (!Suits(g.v.pages, h.pool.infos, g.live, ptr, size) && Refused(h.pool.infos, g, size, env))
    ensures AllInUse(h.pool.infos) ==> AllInUse(h'.pool.infos)
  {
    var valid, osize, chunk, h1 := Measure(h, ptr, g);
    PtrPositive(g.v, h.pool.infos, g.live, ptr);
    if !valid { return 0, h1, g; }
    StaysIffSuits(g.v, h.pool.infos, g.live, ptr, size);
    if StaysPut(osize, chunk, size) {
      Resized(g.v, h.pool.infos, g.live, ptr, size);
      return ptr, h1, g.(live := g.live[ptr := Req(size, g.live[ptr].room)]);
    }
    r, h', g' := Move(h1, ptr, size, env, env2, g);
  }

  lemma SparesLater(h: Holders, h': Holders, env: Env, env2: Env)
    requires SparesOK(h, env2) && FirstSpareOK(h, env2) && EnvApart(env, env2) && h'.Keys <= h.Keys + {env.s0, env.s1, env.s2}
    ensures SparesOK(h', env2) && FirstSpareOK(h', env2)
  {
  }

  /** irealloc when the block cannot stay: a new one is got, and the old one given back. */
  method Move(h: Heap, ptr: int, size: int, env: Env, env2: Env, ghost g: Shadow) returns (r: int, h': Heap, ghost g': Shadow)
    requires Sound(h, g) && 0 <= size && ptr in g.live
    requires EnvOK(h, g, size, env) && FirstSpareOK(h.holders, env)
    requires SparesOK(h.holders, env2) && FirstSpareOK(h.holders, env2) && EnvApart(env, env2)
    ensures Sound(h', g') && h'.cache == h.cache
    ensures env.s1 != NULL && env2.s1 != NULL ==> g'.lost == g.lost
    ensures r == 0 <==> Refused(h.pool.infos, g, size, env)
    ensures if r == 0 then g'.live == g.live else r != ptr && exists mid :: Got(g.live, mid, r, size) && Gave(mid, g'.live, ptr)
    ensures AllInUse(h.pool.infos) ==> AllInUse(h'.pool.infos)
  {
    r, h', g' := IMalloc(h, size, env, g);
    if r != 0 {
      ghost var mid := g'.live;
      LiveEntry(g'.v, h'.pool.infos, g'.live, ptr);
      SparesLater(h.holders, h'.holders, env, env2);
      h', g' := IFree(h', ptr, env2, g');
      assert Got(g.live, mid, r, size) && Gave(mid, g'.live, ptr);
    }
  }

  lemma PtrPositive(v: View, infos: map<Addr, Pginfo>, live: map<int, Req>, ptr: int)
    requires Consistent(v, infos, live)
    ensures ptr in live ==> 0 < ptr
  {
    if ptr in live {
      assert Block(v.pages, infos, ptr);
      var e := EntryAt(v.pages, ptr / PAGE);
      assert ptr / PAGE in v.owned;
    }
  }
}
