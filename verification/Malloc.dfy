/**
  The allocator as its clients see it: malloc, free and realloc over the global
  state of ext/OpenBSD_malloc_Linux.c, and what holds in every state they can reach.
 */
module MallocApi {

  import opened Chains
  import opened PageDirectory
  import opened FreeList
  import opened Bitmap
  import opened ChunkPool
  import opened Blocks
  import opened Allocator

  // ----- the initial state -----

  /** What malloc_init sets up: one directory page, with its bucket slots counted in. */
  function FirstHeap(pageDir: Addr, cache: int): Heap {
    Heap(Dirs(map[pageDir := Pdinfo(seq(PDI_MOD, _ => NotMine), NULL, NULL, RESERVED)], pageDir, pageDir, NULL),
         map[FREE_LIST := PgFree(NULL, NULL, 0, NULL, 0)], NULL,
         Pool(map[], map[], seq(BUCKETS, _ => NULL)),
         if cache == 0 then 1 else cache)
  }

  ghost function FirstShadow(pageDir: Addr): Shadow {
    Shadow(View([pageDir], [0], map[], {}), [], [], Queues(seq(BUCKETS, _ => []), map[]), map[], {})
  }

  lemma FirstSound(pageDir: Addr, cache: nat)
    requires pageDir != NULL
    ensures Sound(FirstHeap(pageDir, cache), FirstShadow(pageDir))
  {
    var h, g := FirstHeap(pageDir, cache), FirstShadow(pageDir);
    assert InDir({}, 0) == {};
    assert Directory(h.dirs.mem, h.dirs.head, g.v);
    assert Listed(h.holders, g.order, g.runs);
    assert Stocked(h.dirs.mem, g.v.pages, g.runs);
    assert Accounted(g.v.pages, g.runs, g.lost);
    assert PoolOK(h.pool, g.q);
    assert Consistent(g.v, h.pool.infos, g.live);
  }

  // ----- what holds in every state -----

  /** Blocks in use are pairwise disjoint, and each is as large as what was asked for. */
  lemma BlocksDisjoint(h: Heap, g: Shadow)
    requires Sound(h, g)
    ensures forall x, y {:trigger g.live[x], g.live[y]} :: x in g.live && y in g.live && x < y ==> x + g.live[x].room <= y
    ensures forall x :: x in g.live ==> 0 <= g.live[x].want <= g.live[x].room
  {
    forall x, y | x in g.live && y in g.live && x < y ensures x + g.live[x].room <= y {
      Disjoint(g.v, h.pool.infos, g.live, x, y);
    }
    forall x | x in g.live ensures 0 <= g.live[x].want <= g.live[x].room {
      assert Fits(g.v.pages, h.pool.infos, x, g.live[x]);
    }
  }

  /** A block never overlaps a page on the free list. */
  lemma BlocksOffList(h: Heap, g: Shadow, x: int, p: int)
    requires Sound(h, g) && x in g.live && InRuns(g.runs, p)
    ensures x + g.live[x].room <= p * PAGE || (p + 1) * PAGE <= x
  {
    assert EntryAt(g.v.pages, p) == Free;
    assert Block(g.v.pages, h.pool.infos, x) && Fits(g.v.pages, h.pool.infos, x, g.live[x]);
    var q := x / PAGE;
    var e := EntryAt(g.v.pages, q);
    if e.Chunk? {
      ChunkInside(h.pool.infos[e.info], x);
    } else {
      var n := g.live[x].room / PAGE;
      assert q < p < q + n ==> EntryAt(g.v.pages, p) == Follow;
      assert p != q;
    }
  }

  /** The free list: sorted, disjoint, coalesced, of pages marked Free, and within malloc_cache; no cached directory dangles. */
  lemma FreeListOK(h: Heap, g: Shadow)
    requires Sound(h, g)
    ensures Tidy(g.runs) && Total(g.runs) <= h.cache && (forall p :: InRuns(g.runs, p) ==> EntryAt(g.v.pages, p) == Free)
    ensures g.lost == {} ==> forall p :: EntryAt(g.v.pages, p) == Free ==> InRuns(g.runs, p)
    ensures (h.dirs.last == NULL || h.dirs.last in g.v.order) && (h.dirs.prev == NULL || h.dirs.prev in g.v.order)
  {
  }

  /** The first page of the run that page `p` is in. */
  lemma {:induction false} RunHead(v: View, p: int) returns (s: int)
    requires PagesOK(v) && (EntryAt(v.pages, p) == First || EntryAt(v.pages, p) == Follow)
    ensures RESERVED <= s <= p && EntryAt(v.pages, s) == First && forall x {:trigger EntryAt(v.pages, x)} :: s < x <= p ==> EntryAt(v.pages, x) == Follow
    decreases if p < 0 then 0 else p
  {
    assert p in v.owned;
    if EntryAt(v.pages, p) == First {
      s := p;
    } else {
      var q := p - 1;
      assert EntryAt(v.pages, q) == First || EntryAt(v.pages, q) == Follow;
      s := RunHead(v, q);
    }
  }

  lemma RunCovers(pages: map<int, Entry>, s: int, n: int, p: int)
    requires RunIs(pages, s, n) && s <= p && forall x {:trigger EntryAt(pages, x)} :: s < x <= p ==> EntryAt(pages, x) == Follow
    ensures p < s + n
  {
    assert EntryAt(pages, s + n) != Follow;
  }

  /** The block of pages at page `s` reaches as far as page `p`. */
  ghost predicate Holding(g: Shadow, s: int, p: int) {
    s * PAGE in g.live && s <= p && p * PAGE < s * PAGE + g.live[s * PAGE].room
  }

  /** Every page the allocator owns is put to use: on the free list, cut into chunks, inside a block, or lost for want of a holder. */
  lemma PagesInUse(h: Heap, g: Shadow, p: int)
    requires Sound(h, g) && p in g.v.owned
    ensures InRuns(g.runs, p) || p in g.lost || (EntryAt(g.v.pages, p).Chunk? && EntryAt(g.v.pages, p).info in h.pool.infos) || exists s :: Holding(g, s, p)
  {
    var e := EntryAt(g.v.pages, p);
    assert e != NotMine;
    if e == First || e == Follow {
      var s := RunHead(g.v, p);
      var ptr := s * PAGE;
      assert ptr / PAGE == s && ptr % PAGE == 0;
      assert ptr in g.live <==> Block(g.v.pages, h.pool.infos, ptr);
      var n := RunAt(g.v, h.pool.infos, g.live, s);
      RunCovers(g.v.pages, s, n, p);
      assert Holding(g, s, p);
    }
  }

  /** How many of the first `n` entries of a directory are not NotMine. */
  function Mine(base: seq<Entry>, n: nat): nat
    requires n <= |base|
  {
    if n == 0 then 0 else Mine(base, n - 1) + if base[n - 1] == NotMine then 0 else 1
  }

  lemma {:induction false} MineCounts(base: seq<Entry>, k: int, v: View, n: nat)
    requires ShowsDir(base, k, v.pages) && PagesOK(v) && n <= PDI_MOD
    ensures Mine(base, n) == |set p | p in v.owned && PDI_MOD * k <= p < PDI_MOD * k + n|
  {
    var s := set p | p in v.owned && PDI_MOD * k <= p < PDI_MOD * k + n;
    if n == 0 {
      assert s == {};
    } else {
      MineCounts(base, k, v, n - 1);
      var s0 := set p | p in v.owned && PDI_MOD * k <= p < PDI_MOD * k + n - 1;
      var q := PDI_MOD * k + (n - 1);
      assert base[n - 1] == EntryAt(v.pages, q);
      assert s == if q in v.owned then s0 + {q} else s0;
    }
  }

  /** Every dirnum packs the directory's index and the number of its entries that are not NotMine, with the bucket slots in the first. */
  lemma DirnumsExact(h: Heap, g: Shadow, i: nat)
    requires Sound(h, g) && i < |g.v.order|
    ensures |g.v.keys| == |g.v.order| && g.v.order[i] in h.dirs.mem && |h.dirs.mem[g.v.order[i]].base| == PDI_MOD
    ensures var d := h.dirs.mem[g.v.order[i]];
      PdIdx(d.dirnum) == g.v.keys[i] && PdOff(d.dirnum) == Mine(d.base, PDI_MOD) + if i == 0 then RESERVED else 0
    ensures i > 0 ==> g.v.keys[i - 1] < g.v.keys[i] && PdOff(h.dirs.mem[g.v.order[i]].dirnum) > 0
  {
    DirnumAt(h.dirs.mem, h.dirs.head, g.v, i);
  }

  lemma DirnumAt(mem: Memory, head: Addr, v: View, i: nat)
    requires Directory(mem, head, v) && Busy(v.keys, v.owned) && PagesOK(v) && i < |v.order|
    ensures |v.keys| == |v.order| && v.order[i] in mem && |mem[v.order[i]].base| == PDI_MOD
    ensures var d := mem[v.order[i]];
      PdIdx(d.dirnum) == v.keys[i] && PdOff(d.dirnum) == Mine(d.base, PDI_MOD) + if i == 0 then RESERVED else 0
    ensures i > 0 ==> v.keys[i - 1] < v.keys[i] && PdOff(mem[v.order[i]].dirnum) > 0
  {
    Decode(mem, v.order, v.keys, v.owned, i);
    var k := v.keys[i];
    var d := mem[v.order[i]];
    assert ShowsDir(d.base, k, v.pages);
    MineInDir(d.base, k, v);
    if i > 0 {
      assert v.keys[0] < k;
      assert InDir(v.owned, k) != {};
    }
  }

  lemma MineInDir(base: seq<Entry>, k: int, v: View)
    requires ShowsDir(base, k, v.pages) && PagesOK(v)
    ensures Mine(base, PDI_MOD) == |InDir(v.owned, k)|
  {
    MineCounts(base, k, v, PDI_MOD);
    SameDir(v.owned, k);
  }

  lemma SameDir(owned: set<int>, k: int)
    ensures InDir(owned, k) == set p | p in owned && PDI_MOD * k <= p < PDI_MOD * k + PDI_MOD
  {
    forall p | p in owned ensures PiIdx(p) == k <==> PDI_MOD * k <= p < PDI_MOD * k + PDI_MOD {
      if PDI_MOD * k <= p < PDI_MOD * k + PDI_MOD {
        PiIdxIs(p, k);
      }
    }
  }

  /** Every chunk page counts its free chunks exactly, and is on the list of its size, once, precisely when it has one. */
  lemma ChunkListsExact(h: Heap, g: Shadow, a: Addr, b: nat)
    requires Sound(h, g) && b < BUCKETS
    ensures |g.q.lists| == BUCKETS
    ensures a in g.q.lists[b] <==> a in h.pool.infos && BucketOf(h.pool.infos[a]) == b && h.pool.infos[a].free > 0
    ensures forall i, j :: 0 <= i < j < |g.q.lists[b]| ==> g.q.lists[b][i] != g.q.lists[b][j]
    ensures a in h.pool.infos ==> h.pool.infos[a].free == Count(h.pool.infos[a].bits, Slots(BucketOf(h.pool.infos[a])))
  {
    var lists, home := g.q.lists, g.q.home;
    if a in lists[b] {
      var i :| 0 <= i < |lists[b]| && lists[b][i] == a;
      assert lists[b][i] in home;
    }
    if a in home {
      assert home[a] == BucketOf(h.pool.infos[a]);
    }
    if a in h.pool.infos {
      assert InfoOK(h.pool.infos[a]);
    }
  }

  /** Every page of chunks holds a block: the last chunk to come home takes its page along. */
  lemma ChunkPagesInUse(h: Heap, g: Shadow, p: int)
    requires Sound(h, g) && AllInUse(h.pool.infos) && EntryAt(g.v.pages, p).Chunk?
    ensures Shared(g.live, p)
  {
    var at := EntryAt(g.v.pages, p).info;
    var info := h.pool.infos[at];
    assert InUse(info) && info.page == p;
    var k :| LiveChunk(info, k);
    Layout(BucketOf(info));
    InsidePage(info, k);
    var x := ChunkAddr(info, k);
    assert x in g.live <==> Block(g.v.pages, h.pool.infos, x);
  }

  // ----- the interface -----

  class Malloc {
    var heap: Heap
    ghost var shadow: Shadow

    ghost predicate Valid()
      reads this
    {
      Sound(heap, shadow) && AllInUse(heap.pool.infos)
    }

    /** The blocks in use. */
    ghost function Live(): map<int, Req>
      reads this
    {
      shadow.live
    }

    /** An address of a mapped page that is not inside a page's own records. */
    ghost predicate Known(ptr: int)
      reads this
    {
      0 <= ptr && ptr / PAGE in shadow.v.owned && !Admin(shadow.v.pages, heap.pool.infos, ptr)
    }

    /** The block at `ptr` is the one that a request for `size` bytes would get. */
    ghost predicate Stays(ptr: int, size: int)
      reads this
    {
      Suits(shadow.v.pages, heap.pool.infos, shadow.live, ptr, size)
    }

    constructor (pageDir: Addr, cache: nat)
      requires pageDir != NULL
      ensures Valid() && Live() == map[] && heap == FirstHeap(pageDir, cache)
    {
      FirstSound(pageDir, cache);
      heap, shadow := FirstHeap(pageDir, cache), FirstShadow(pageDir);
    }

    /** malloc: null, and nothing changed hands, or one new block. */
    method Alloc(size: nat, env: Env) returns (ptr: int)
      requires Valid() && EnvOK(heap, shadow, size, env) && FirstSpareOK(heap.holders, env)
      modifies this
      ensures Valid() && heap.cache == old(heap.cache)
      ensures ptr == 0 <==> old(Refused(heap.pool.infos, shadow, size, env))
      ensures if ptr == 0 then Live() == old(Live()) else Got(old(Live()), Live(), ptr, size) && Origin(old(heap.pool.infos), old(shadow), shadow, ptr, size, env.run)
      ensures env.s1 != NULL ==> shadow.lost == old(shadow.lost)
    {
      var h;
      ghost var g;
      ptr, h, g := IMalloc(heap, size, env, shadow);
      heap, shadow := h, g;
    }

    /** free: the block at `ptr` is no longer in use; a null or stale pointer changes nothing. */
    method Release(ptr: int, env: Env)
      requires Valid() && (ptr != 0 ==> Known(ptr)) && SparesOK(heap.holders, env) && FirstSpareOK(heap.holders, env)
      modifies this
      ensures Valid() && heap.cache == old(heap.cache) && Gave(old(Live()), Live(), ptr)
      ensures ptr != 0 ==> Vacated(old(heap), old(shadow), heap, shadow, ptr, env.s1)
      ensures env.s1 != NULL ==> shadow.lost == old(shadow.lost)
    {
      if ptr == 0 {
        PtrPositive(shadow.v, heap.pool.infos, shadow.live, 0);
        GaveNothing(shadow.live, 0);
        return;
      }
      var h;
      ghost var g;
      h, g := IFree(heap, ptr, env, shadow);
      heap, shadow := h, g;
    }

    /** realloc: as malloc for a null pointer; otherwise the block stays, is moved, or nothing changed hands. */
    method Resize(ptr: int, size: nat, env: Env, env2: Env) returns (r: int)
      requires Valid() && (ptr == 0 || Known(ptr)) && EnvOK(heap, shadow, size, env) && FirstSpareOK(heap.holders, env)
      requires SparesOK(heap.holders, env2) && FirstSpareOK(heap.holders, env2) && EnvApart(env, env2)
      modifies this
      ensures Valid() && heap.cache == old(heap.cache)
      ensures env.s1 != NULL && env2.s1 != NULL ==> shadow.lost == old(shadow.lost)
      ensures ptr == 0 ==> (r == 0 <==> old(Refused(heap.pool.infos, shadow, size, env)))
      ensures ptr != 0 ==> (r == 0 <==> ptr !in old(Live()) || (!old(Stays(ptr, size)) && old(Refused(heap.pool.infos, shadow, size, env))))
      ensures ptr != 0 && ptr in old(Live()) ==> (r == ptr <==> old(Stays(ptr, size)))
      ensures r == 0 ==> Live() == old(Live())
      ensures ptr == 0 && r != 0 ==> Got(old(Live()), Live(), r, size)
      ensures ptr != 0 && r != 0 ==> ptr in old(Live())
      ensures ptr != 0 && r == ptr ==> Live() == old(Live())[ptr := Req(size, old(Live())[ptr].room)]
      ensures ptr != 0 && r != 0 && r != ptr ==> exists mid :: Got(old(Live()), mid, r, size) && Gave(mid, Live(), ptr)
    {
      if ptr == 0 {
        r := Alloc(size, env);
        return;
      }
      var h;
      ghost var g;
      r, h, g := IRealloc(heap, ptr, size, env, env2, shadow);
      heap, shadow := h, g;
    }
  }
}
