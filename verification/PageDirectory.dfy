/**
  The sparse page directory of ext/OpenBSD_malloc_Linux.c.

  Directory pages form a doubly linked list in explicit memory: a map from the
  address of a directory to its contents, from which an unmapped directory is
  gone.  Each holds one entry for each of PDI_MOD consecutive page indices, and
  packs its own index and its number of pages into `dirnum`.
 */
module PageDirectory {

  import opened Chains

  const PER_DIR: int := 512    // malloc_pagesize / sizeof(struct pginfo *)
  const PDI_MOD: int := 508    // entries left beside the struct pdinfo
  const RESERVED: int := 12    // malloc_pageshift: the bucket slots of the first directory

  datatype Entry = NotMine | Free | First | Follow | Chunk(info: Addr)

  datatype Pdinfo = Pdinfo(base: seq<Entry>, prev: Addr, next: Addr, dirnum: int)

  type Memory = map<Addr, Pdinfo>

  function PdIdx(num: int): int { num / PER_DIR }

  function PdOff(num: int): int { num % PER_DIR }

  function PiIdx(index: int): int { index / PDI_MOD }

  function PiOff(index: int): int { index % PDI_MOD }

  // ----- what a directory list stands for -----

  /** The pages owned in directory `k`. */
  ghost function InDir(owned: set<int>, k: int): set<int> {
    set p | p in owned && PiIdx(p) == k
  }

  /** What PD_OFF(dirnum) counts: pages owned, and the bucket slots in the first directory. */
  ghost function Tally(owned: set<int>, k: int): int {
    |InDir(owned, k)| + if k == 0 then RESERVED else 0
  }

  function EntryAt(pages: map<int, Entry>, p: int): Entry {
    if p in pages then pages[p] else NotMine
  }

  function Before(order: seq<Addr>, i: int): Addr {
    if 0 < i <= |order| then order[i - 1] else NULL
  }

  ghost predicate Linked(mem: Memory, order: seq<Addr>) {
    && |order| > 0
    && (forall i {:trigger mem[order[i]]} {:trigger order[i] in mem} :: 0 <= i < |order| ==>
          && order[i] != NULL && order[i] in mem
          && mem[order[i]].next == Link(order, i + 1) && mem[order[i]].prev == Before(order, i))
    && (forall a {:trigger a in mem} :: a in mem ==> a in order)
  }

  ghost predicate Rising(keys: seq<int>) {
    && |keys| > 0 && keys[0] == 0
    && (forall i, j {:trigger keys[i], keys[j]} :: 0 <= i < j < |keys| ==> keys[i] < keys[j])
  }

  ghost predicate Numbered(mem: Memory, order: seq<Addr>, keys: seq<int>, owned: set<int>) {
    && |order| == |keys|
    && (forall i {:trigger keys[i]} :: 0 <= i < |keys| ==>
          order[i] in mem && mem[order[i]].dirnum == PER_DIR * keys[i] + Tally(owned, keys[i]))
  }

  ghost predicate ShowsDir(base: seq<Entry>, k: int, pages: map<int, Entry>) {
    && |base| == PDI_MOD
    && (forall o {:trigger base[o]} :: 0 <= o < PDI_MOD ==> base[o] == EntryAt(pages, PDI_MOD * k + o))
  }

  ghost predicate Viewed(mem: Memory, order: seq<Addr>, keys: seq<int>, pages: map<int, Entry>) {
    && |order| == |keys|
    && (forall i {:trigger keys[i]} :: 0 <= i < |keys| ==> order[i] in mem && ShowsDir(mem[order[i]].base, keys[i], pages))
  }

  ghost predicate Covered(keys: seq<int>, owned: set<int>) {
    forall p {:trigger p in owned} :: p in owned ==> RESERVED <= p && PiIdx(p) in keys
  }

  /**
    What a directory list stands for: its addresses and indices in list order, the
    entries that are not NotMine, and the page indices that are counted as owned.
   */
  datatype View = View(order: seq<Addr>, keys: seq<int>, pages: map<int, Entry>, owned: set<int>)

  ghost predicate DirectoryParts(mem: Memory, head: Addr, v: View) {
    && Linked(mem, v.order) && v.order[0] == head
    && Rising(v.keys) && Covered(v.keys, v.owned) && v.pages.Keys <= v.owned
    && Numbered(mem, v.order, v.keys, v.owned)
    && Viewed(mem, v.order, v.keys, v.pages)
  }

  /** The directory list as a whole.  Comparing with `true` keeps it one fact where it is only passed along. */
  ghost predicate Directory(mem: Memory, head: Addr, v: View) {
    DirectoryParts(mem, head, v) == true
  }

  /** Every directory but the first exists because it owns a page. */
  ghost predicate Busy(keys: seq<int>, owned: set<int>) {
    forall i {:trigger keys[i]} :: 0 < i < |keys| ==> InDir(owned, keys[i]) != {}
  }

  ghost predicate CacheOK(mem: Memory, last: Addr, prev: Addr) {
    (last == NULL || last in mem) && (prev == NULL || prev in mem)
  }

  // ----- counting -----

  predicate IsPage(i: int) { 0 <= i }

  /** The page indices from `a` up to but not including `b`. */
  ghost function Interval(a: int, b: int): set<int> {
    set i {:trigger IsPage(i)} | a <= i < b && IsPage(i)
  }

  lemma {:induction false} IntervalCard(a: int, b: int)
    requires 0 <= a <= b
    ensures |Interval(a, b)| == b - a
    decreases b - a
  {
    if a == b {
      assert Interval(a, b) == {};
    } else {
      IntervalCard(a, b - 1);
      assert Interval(a, b) == Interval(a, b - 1) + {b - 1};
    }
  }

  lemma SubsetCard(a: set<int>, b: set<int>)
    requires a <= b
    ensures |a| <= |b|
  {
    assert b == a + (b - a);
  }

  lemma TallyBound(keys: seq<int>, owned: set<int>, k: int)
    requires Covered(keys, owned) && 0 <= k
    ensures (if k == 0 then RESERVED else 0) <= Tally(owned, k) <= PDI_MOD
  {
    var lo := if k == 0 then RESERVED else PDI_MOD * k;
    assert InDir(owned, k) <= Interval(lo, PDI_MOD * (k + 1));
    SubsetCard(InDir(owned, k), Interval(lo, PDI_MOD * (k + 1)));
    IntervalCard(lo, PDI_MOD * (k + 1));
  }

  /** dirnum decodes to the directory's index and its count. */
  lemma Decode(mem: Memory, order: seq<Addr>, keys: seq<int>, owned: set<int>, i: nat)
    requires Numbered(mem, order, keys, owned) && Covered(keys, owned) && Rising(keys) && i < |keys|
    ensures order[i] in mem
    ensures PdIdx(mem[order[i]].dirnum) == keys[i] && PdOff(mem[order[i]].dirnum) == Tally(owned, keys[i])
  {
    assert i > 0 ==> keys[0] < keys[i];
    TallyBound(keys, owned, keys[i]);
  }

  // ----- lookup -----

  /** The reference: walk the sorted list from its head while the next index is not past `pidx`. */
  function Scan(keys: seq<int>, pidx: int): nat
    requires |keys| > 0
  {
    if |keys| == 1 || keys[1] > pidx then 0 else 1 + Scan(keys[1..], pidx)
  }

  lemma {:induction false} ScanIs(keys: seq<int>, pidx: int, j: nat)
    requires forall i, k {:trigger keys[i], keys[k]} :: 0 <= i < k < |keys| ==> keys[i] < keys[k]
    requires j < |keys| && (j > 0 ==> keys[j] <= pidx) && (j + 1 < |keys| ==> pidx < keys[j + 1])
    ensures Scan(keys, pidx) == j
  {
    if j == 0 {
    } else {
      assert keys[1] <= keys[j];
      ScanIs(keys[1..], pidx, j - 1);
    }
  }

  /** The test at the cached pair: C parses it as `A > p ? A - p : ((p - A < (B > p)) ? B - p : p - B)`. */
  function PrefersLast(a: int, b: int, p: int): bool {
    (if a > p then a - p else if p - a < (if b > p then 1 else 0) then b - p else p - b) != 0
  }

  lemma PrefersLastAlways(a: int, b: int, p: int)
    requires a != p && b != p
    ensures PrefersLast(a, b, p)
  {
  }

  /** pdir_lookup */
  method Lookup(mem: Memory, head: Addr, last: Addr, prev: Addr, index: int,
                ghost v: View)
    returns (pdi: Addr, r: int, ghost j: nat)
    requires Directory(mem, head, v) && CacheOK(mem, last, prev) && 0 <= index
    ensures j == Scan(v.keys, PiIdx(index)) && j < |v.order| && pdi == v.order[j] && v.keys[j] <= PiIdx(index)
    ensures j + 1 < |v.keys| ==> PiIdx(index) < v.keys[j + 1]
    ensures r == if v.keys[j] == PiIdx(index) then 0 else -1
    ensures pdi in mem && PdIdx(mem[pdi].dirnum) == v.keys[j]
  {
    var pidx := PiIdx(index);
    if last != NULL && PdIdx(mem[last].dirnum) == pidx {
      pdi := last;
      j := Position(mem, v.order, v.keys, v.owned, last);
    } else if prev != NULL && PdIdx(mem[prev].dirnum) == pidx {
      pdi := prev;
      j := Position(mem, v.order, v.keys, v.owned, prev);
    } else if last != NULL && prev != NULL {
      pdi := if PrefersLast(PdIdx(mem[last].dirnum), PdIdx(mem[prev].dirnum), pidx) then last else prev;
      j := Position(mem, v.order, v.keys, v.owned, pdi);
      if PdIdx(mem[pdi].dirnum) > pidx {
        pdi, j := WalkBack(mem, head, pdi, pidx, v, j);
      } else {
        pdi, j := WalkOn(mem, head, pdi, pidx, v, j);
      }
    } else {
      pdi, j := head, 0;
      pdi, j := WalkOn(mem, head, pdi, pidx, v, j);
    }
    Decode(mem, v.order, v.keys, v.owned, j);
    assert j + 1 < |v.keys| ==> v.keys[j] < v.keys[j + 1];
    ScanIs(v.keys, pidx, j);
    r := if PdIdx(mem[pdi].dirnum) == pidx then 0 else if PdIdx(mem[pdi].dirnum) > pidx then 1 else -1;
  }

  lemma Position(mem: Memory, order: seq<Addr>, keys: seq<int>, owned: set<int>, a: Addr) returns (j: nat)
    requires Linked(mem, order) && Numbered(mem, order, keys, owned) && Covered(keys, owned) && Rising(keys)
    requires a in mem
    ensures j < |order| && order[j] == a && PdIdx(mem[a].dirnum) == keys[j]
  {
    j :| 0 <= j < |order| && order[j] == a;
    Decode(mem, order, keys, owned, j);
  }

  /** Backwards from a directory past `pidx`. */
  method WalkBack(mem: Memory, head: Addr, start: Addr, pidx: int,
                  ghost v: View, ghost j0: nat)
    returns (pdi: Addr, ghost j: nat)
    requires Directory(mem, head, v) && 0 <= pidx
    requires j0 < |v.order| && start == v.order[j0] && v.keys[j0] > pidx
    ensures j < |v.order| && pdi == v.order[j] && v.keys[j] <= pidx && (j + 1 < |v.keys| ==> pidx < v.keys[j + 1])
  {
    pdi, j := start, j0;
    var spi := mem[pdi].prev;
    while spi != NULL && PdIdx(mem[spi].dirnum) > pidx
      invariant j < |v.order| && pdi == v.order[j] && v.keys[j] > pidx && spi == Before(v.order, j)
      invariant spi != NULL ==> spi in mem
      decreases j
    {
      Decode(mem, v.order, v.keys, v.owned, j - 1);
      pdi, j := spi, j - 1;
      spi := mem[spi].prev;
    }
    assert j > 0 by {
      assert v.keys[0] == 0;
    }
    Decode(mem, v.order, v.keys, v.owned, j - 1);
    if spi != NULL {
      pdi, j := spi, j - 1;
    }
  }

  /** Forwards from a directory at or before `pidx`. */
  method WalkOn(mem: Memory, head: Addr, start: Addr, pidx: int,
                ghost v: View, ghost j0: nat)
    returns (pdi: Addr, ghost j: nat)
    requires Directory(mem, head, v) && 0 <= pidx
    requires j0 < |v.order| && start == v.order[j0] && v.keys[j0] <= pidx
    ensures j < |v.order| && pdi == v.order[j] && v.keys[j] <= pidx && (j + 1 < |v.keys| ==> pidx < v.keys[j + 1])
  {
    pdi, j := start, j0;
    var spi := mem[pdi].next;
    while spi != NULL && PdIdx(mem[spi].dirnum) <= pidx
      invariant j < |v.order| && pdi == v.order[j] && v.keys[j] <= pidx && spi == Link(v.order, j + 1)
      invariant spi != NULL ==> spi in mem
      decreases |v.order| - j
    {
      Decode(mem, v.order, v.keys, v.owned, j + 1);
      pdi, j := spi, j + 1;
      spi := mem[spi].next;
    }
    if j + 1 < |v.order| {
      Decode(mem, v.order, v.keys, v.owned, j + 1);
    }
  }

  // ----- linking and unlinking a directory -----

  /** A fresh directory page for index `k`, linked in after `spi`. */
  function LinkDir(mem: Memory, spi: Addr, addr: Addr, k: int): Memory
    requires spi in mem && (mem[spi].next != NULL ==> mem[spi].next in mem)
  {
    var nx := mem[spi].next;
    var m1 := mem[addr := Pdinfo(seq(PDI_MOD, _ => NotMine), spi, nx, k * PER_DIR)];
    var m2 := if nx != NULL then m1[nx := m1[nx].(prev := addr)] else m1;
    m2[spi := m2[spi].(next := addr)]
  }

  /** A directory page taken off the list and unmapped. */
  function UnlinkDir(mem: Memory, pi: Addr): Memory
    requires pi in mem && (mem[pi].next != NULL ==> mem[pi].next in mem) && (mem[pi].prev != NULL ==> mem[pi].prev in mem)
  {
    var d := mem[pi];
    var m1 := if d.prev != NULL then mem[d.prev := mem[d.prev].(next := d.next)] else mem;
    var m2 := if d.next != NULL then m1[d.next := m1[d.next].(prev := d.prev)] else m1;
    m2 - {pi}
  }

  /** `mem'` agrees with `mem` on everything but links, at every directory of `order`. */
  ghost predicate SameContents(mem: Memory, mem': Memory, order: seq<Addr>) {
    forall i {:trigger mem'[order[i]]} {:trigger order[i] in mem'} :: 0 <= i < |order| ==>
      order[i] in mem && order[i] in mem' && mem'[order[i]].base == mem[order[i]].base && mem'[order[i]].dirnum == mem[order[i]].dirnum
  }

  ghost predicate DistinctDirs(order: seq<Addr>) {
    forall i, j {:trigger order[i], order[j]} :: 0 <= i < j < |order| ==> order[i] != order[j]
  }

  lemma DirsDistinct(mem: Memory, head: Addr, v: View)
    requires Directory(mem, head, v)
    ensures DistinctDirs(v.order)
  {
    forall i, j | 0 <= i < j < |v.order| ensures v.order[i] != v.order[j] {
      Decode(mem, v.order, v.keys, v.owned, i);
      Decode(mem, v.order, v.keys, v.owned, j);
    }
  }

  lemma LinkedInsert(mem: Memory, order: seq<Addr>, j: nat, addr: Addr, k: int)
    requires Linked(mem, order) && DistinctDirs(order) && j < |order| && addr != NULL && addr !in mem
    ensures order[j] in mem && (mem[order[j]].next != NULL ==> mem[order[j]].next in mem)
    ensures Linked(LinkDir(mem, order[j], addr, k), Insert(order, j + 1, addr))
  {
    var spi, order' := order[j], Insert(order, j + 1, addr);
    assert spi in mem && mem[spi].next == Link(order, j + 1);
    assert j + 1 < |order| ==> order[j + 1] in mem;
    var mem' := LinkDir(mem, spi, addr, k);
    forall i | 0 <= i < |order'|
      ensures order'[i] != NULL && order'[i] in mem' && mem'[order'[i]].next == Link(order', i + 1) && mem'[order'[i]].prev == Before(order', i)
    {
      if i <= j {
        var a := order[i];
        assert order'[i] == a && a in mem && a != addr;
        assert i < j ==> a != order[j] && order'[i + 1] == order[i + 1];
        assert j + 1 < |order| ==> a != order[j + 1];
        assert Before(order', i) == Before(order, i);
      } else if i > j + 1 {
        var a := order[i - 1];
        assert order'[i] == a && a in mem && a != addr && a != order[j];
        assert Link(order', i + 1) == Link(order, i);
        assert i > j + 2 ==> a != order[j + 1] && Before(order', i) == order[i - 2];
      }
    }
    InsertMembers(order, j + 1, addr);
  }

  lemma LinkedDelete(mem: Memory, order: seq<Addr>, j: nat)
    requires Linked(mem, order) && DistinctDirs(order) && 0 < j < |order|
    ensures order[j] in mem && (mem[order[j]].next != NULL ==> mem[order[j]].next in mem) && mem[order[j]].prev in mem
    ensures Linked(UnlinkDir(mem, order[j]), Delete(order, j))
    ensures SameContents(mem, UnlinkDir(mem, order[j]), Delete(order, j))
  {
    var pi, order' := order[j], Delete(order, j);
    assert pi in mem && order[j - 1] in mem;
    assert j + 1 < |order| ==> order[j + 1] in mem;
    var mem' := UnlinkDir(mem, pi);
    forall i | 0 <= i < |order'|
      ensures order'[i] != NULL && order'[i] in mem' && order'[i] in mem
      ensures mem'[order'[i]].next == Link(order', i + 1) && mem'[order'[i]].prev == Before(order', i)
      ensures mem'[order'[i]].base == mem[order'[i]].base && mem'[order'[i]].dirnum == mem[order'[i]].dirnum
    {
      if i < j {
        assert order'[i] == order[i] && order[i] in mem;
      } else {
        assert order'[i] == order[i + 1] && order[i + 1] in mem;
      }
    }
    DeleteMembers(order, j);
  }

  lemma RisingInsert(keys: seq<int>, j: nat, k: int)
    requires Rising(keys) && j < |keys| && keys[j] < k && (j + 1 < |keys| ==> k < keys[j + 1])
    ensures Rising(Insert(keys, j + 1, k)) && k !in keys && 0 < k
  {
    var keys' := Insert(keys, j + 1, k);
    assert forall i :: 0 <= i <= j ==> keys[i] <= keys[j];
    assert forall i :: j < i < |keys| ==> keys[j + 1] <= keys[i];
    assert forall i :: 0 <= i <= j ==> keys'[i] == keys[i];
    assert forall i :: j + 1 < i < |keys'| ==> keys'[i] == keys[i - 1];
  }

  lemma RisingDelete(keys: seq<int>, j: nat)
    requires Rising(keys) && 0 < j < |keys|
    ensures Rising(Delete(keys, j))
  {
    var keys' := Delete(keys, j);
    assert forall i :: 0 <= i < j ==> keys'[i] == keys[i];
    assert forall i :: j <= i < |keys'| ==> keys'[i] == keys[i + 1];
  }

  /** Directory `a` of `mem` is still there, for the same index. */
  ghost predicate KeepsDirs(mem: Memory, mem': Memory) {
    forall a {:trigger mem'[a]} {:trigger a in mem'} :: a in mem ==> a in mem' && PdIdx(mem'[a].dirnum) == PdIdx(mem[a].dirnum)
  }

  lemma PiIdxIs(p: int, k: int)
    requires PDI_MOD * k <= p < PDI_MOD * (k + 1)
    ensures PiIdx(p) == k && PiOff(p) == p - PDI_MOD * k
  {
  }

  lemma BlankDir(pages: map<int, Entry>, k: int)
    requires forall p {:trigger p in pages} :: p in pages ==> PiIdx(p) != k
    ensures ShowsDir(seq(PDI_MOD, _ => NotMine), k, pages)
  {
    var base := seq(PDI_MOD, _ => NotMine);
    forall o | 0 <= o < PDI_MOD ensures base[o] == EntryAt(pages, PDI_MOD * k + o) {
      PiIdxIs(PDI_MOD * k + o, k);
    }
  }

  lemma LinkDirKeeps(mem: Memory, spi: Addr, addr: Addr, k: int)
    requires spi in mem && (mem[spi].next != NULL ==> mem[spi].next in mem) && addr !in mem
    ensures Extends(mem, LinkDir(mem, spi, addr, k)) && LinkDir(mem, spi, addr, k).Keys == mem.Keys + {addr}
  {
  }

  /** `mem'` has every directory of `mem` with the same entries and count. */
  ghost predicate Extends(mem: Memory, mem': Memory) {
    forall a {:trigger mem'[a]} {:trigger a in mem'} :: a in mem ==> a in mem' && mem'[a].dirnum == mem[a].dirnum && mem'[a].base == mem[a].base
  }

  lemma NumberedInsert(mem: Memory, mem': Memory, order: seq<Addr>, keys: seq<int>, owned: set<int>, i: nat, addr: Addr, k: int)
    requires Numbered(mem, order, keys, owned) && Extends(mem, mem') && i <= |order|
    requires addr in mem' && mem'[addr].dirnum == PER_DIR * k + Tally(owned, k)
    ensures Numbered(mem', Insert(order, i, addr), Insert(keys, i, k), owned)
  {
    forall j | 0 <= j < |keys| ensures order[j] in mem' && mem'[order[j]].dirnum == PER_DIR * keys[j] + Tally(owned, keys[j]) {
      var k, a := keys[j], order[j];
      assert a in mem && a in mem';
    }
  }

  lemma ViewedInsert(mem: Memory, mem': Memory, order: seq<Addr>, keys: seq<int>, pages: map<int, Entry>, i: nat, addr: Addr, k: int)
    requires Viewed(mem, order, keys, pages) && Extends(mem, mem') && i <= |order|
    requires addr in mem' && ShowsDir(mem'[addr].base, k, pages)
    ensures Viewed(mem', Insert(order, i, addr), Insert(keys, i, k), pages)
  {
    forall j | 0 <= j < |keys| ensures order[j] in mem' && ShowsDir(mem'[order[j]].base, keys[j], pages) {
      var k, a := keys[j], order[j];
      assert a in mem && a in mem';
    }
  }

  lemma NumberedDelete(mem: Memory, mem': Memory, order: seq<Addr>, keys: seq<int>, owned: set<int>, j: nat)
    requires Numbered(mem, order, keys, owned) && j < |order| && SameContents(mem, mem', Delete(order, j))
    ensures Numbered(mem', Delete(order, j), Delete(keys, j), owned)
  {
    var order', keys' := Delete(order, j), Delete(keys, j);
    forall i | 0 <= i < |keys'| ensures order'[i] in mem' && mem'[order'[i]].dirnum == PER_DIR * keys'[i] + Tally(owned, keys'[i]) {
      var i0 := if i < j then i else i + 1;
      assert keys'[i] == keys[i0] && order'[i] == order[i0];
    }
  }

  lemma ViewedDelete(mem: Memory, mem': Memory, order: seq<Addr>, keys: seq<int>, pages: map<int, Entry>, j: nat)
    requires Viewed(mem, order, keys, pages) && j < |order| && SameContents(mem, mem', Delete(order, j))
    ensures Viewed(mem', Delete(order, j), Delete(keys, j), pages)
  {
    var order', keys' := Delete(order, j), Delete(keys, j);
    forall i | 0 <= i < |keys'| ensures order'[i] in mem' && ShowsDir(mem'[order'[i]].base, keys'[i], pages) {
      var i0 := if i < j then i else i + 1;
      assert keys'[i] == keys[i0] && order'[i] == order[i0];
    }
  }

  /** Rewriting the entries or the count of one directory disturbs no link. */
  lemma LinkedContent(mem: Memory, order: seq<Addr>, d: Addr, v: Pdinfo)
    requires Linked(mem, order) && d in mem && v.next == mem[d].next && v.prev == mem[d].prev
    ensures Linked(mem[d := v], order)
  {
    var mem' := mem[d := v];
    forall i | 0 <= i < |order|
      ensures order[i] != NULL && order[i] in mem' && mem'[order[i]].next == Link(order, i + 1) && mem'[order[i]].prev == Before(order, i)
    {
      assert order[i] in mem;
    }
  }

  lemma DirectoryInsert(mem: Memory, head: Addr, v: View,
                        j: nat, addr: Addr, k: int)
    requires Directory(mem, head, v) && j < |v.order|
    requires v.keys[j] < k && (j + 1 < |v.keys| ==> k < v.keys[j + 1]) && addr != NULL && addr !in mem
    ensures v.order[j] in mem && (mem[v.order[j]].next != NULL ==> mem[v.order[j]].next in mem)
    ensures Directory(LinkDir(mem, v.order[j], addr, k), head, v.(order := Insert(v.order, j + 1, addr), keys := Insert(v.keys, j + 1, k)))
    ensures KeepsDirs(mem, LinkDir(mem, v.order[j], addr, k)) && LinkDir(mem, v.order[j], addr, k).Keys == mem.Keys + {addr}
    ensures 0 < k && InDir(v.owned, k) == {}
  {
    DirsDistinct(mem, head, v);
    LinkedInsert(mem, v.order, j, addr, k);
    RisingInsert(v.keys, j, k);
    InsertMembers(v.keys, j + 1, k);
    var mem', order', keys' := LinkDir(mem, v.order[j], addr, k), Insert(v.order, j + 1, addr), Insert(v.keys, j + 1, k);
    LinkDirKeeps(mem, v.order[j], addr, k);
    assert InDir(v.owned, k) == {};
    BlankDir(v.pages, k);
    NumberedInsert(mem, mem', v.order, v.keys, v.owned, j + 1, addr, k);
    ViewedInsert(mem, mem', v.order, v.keys, v.pages, j + 1, addr, k);
  }

  lemma DirectoryDelete(mem: Memory, head: Addr, v: View, j: nat)
    requires Directory(mem, head, v) && 0 < j < |v.order| && InDir(v.owned, v.keys[j]) == {}
    ensures v.order[j] in mem && (mem[v.order[j]].next != NULL ==> mem[v.order[j]].next in mem) && mem[v.order[j]].prev in mem
    ensures Directory(UnlinkDir(mem, v.order[j]), head, v.(order := Delete(v.order, j), keys := Delete(v.keys, j)))
  {
    DirsDistinct(mem, head, v);
    LinkedDelete(mem, v.order, j);
    RisingDelete(v.keys, j);
    DeleteMembers(v.keys, j);
    var mem', order', keys' := UnlinkDir(mem, v.order[j]), Delete(v.order, j), Delete(v.keys, j);
    assert forall p :: p in v.owned && PiIdx(p) == v.keys[j] ==> p in InDir(v.owned, v.keys[j]);
    NumberedDelete(mem, mem', v.order, v.keys, v.owned, j);
    ViewedDelete(mem, mem', v.order, v.keys, v.pages, j);
  }

  // ----- counting pages in and out -----

  lemma TallyAdd(owned: set<int>, owned': set<int>, a: int, n: nat, k: int)
    requires 0 <= a && PDI_MOD * k <= a && a + n <= PDI_MOD * (k + 1) && Interval(a, a + n) !! owned && owned' == owned + Interval(a, a + n)
    ensures Tally(owned', k) == Tally(owned, k) + n
    ensures forall d {:trigger Tally(owned', d)} :: d != k ==> Tally(owned', d) == Tally(owned, d)
  {
    assert InDir(owned', k) == InDir(owned, k) + Interval(a, a + n);
    IntervalCard(a, a + n);
    forall d | d != k ensures Tally(owned', d) == Tally(owned, d) {
      assert InDir(owned', d) == InDir(owned, d);
    }
  }

  lemma TallyDrop(owned: set<int>, owned': set<int>, p: int)
    requires p in owned && owned' == owned - {p}
    ensures Tally(owned', PiIdx(p)) == Tally(owned, PiIdx(p)) - 1
    ensures forall d {:trigger Tally(owned', d)} :: d != PiIdx(p) ==> Tally(owned', d) == Tally(owned, d)
  {
    assert InDir(owned', PiIdx(p)) == InDir(owned, PiIdx(p)) - {p};
    forall d | d != PiIdx(p) ensures Tally(owned', d) == Tally(owned, d) {
      assert InDir(owned', d) == InDir(owned, d);
    }
  }

  /** Counting pages in or out never changes the index that a dirnum decodes to. */
  lemma SameIndices(mem: Memory, mem': Memory, order: seq<Addr>, keys: seq<int>, owned: set<int>, owned': set<int>)
    requires Linked(mem, order) && Rising(keys) && Covered(keys, owned) && Covered(keys, owned')
    requires Numbered(mem, order, keys, owned) && Numbered(mem', order, keys, owned')
    ensures KeepsDirs(mem, mem')
  {
    forall d | d in mem ensures d in mem' && PdIdx(mem'[d].dirnum) == PdIdx(mem[d].dirnum) {
      var i := Position(mem, order, keys, owned, d);
      Decode(mem', order, keys, owned', i);
    }
  }

  /** `dirnum += b - a` on the directory that covers [a, b). */
  function Recount(mem: Memory, d: Addr, n: int): Memory
    requires d in mem
  {
    mem[d := mem[d].(dirnum := mem[d].dirnum + n)]
  }

  lemma NumberedAdd(mem: Memory, order: seq<Addr>, keys: seq<int>, owned: set<int>, j: nat, a: int, n: nat)
    requires Numbered(mem, order, keys, owned) && DistinctDirs(order) && Rising(keys) && Covered(keys, owned)
    requires j < |order| && RESERVED <= a && order[j] in mem
    requires PDI_MOD * keys[j] <= a && a + n <= PDI_MOD * (keys[j] + 1) && Interval(a, a + n) !! owned
    ensures Numbered(Recount(mem, order[j], n), order, keys, owned + Interval(a, a + n)) && Covered(keys, owned + Interval(a, a + n))
  {
    var mem', owned' := Recount(mem, order[j], n), owned + Interval(a, a + n);
    TallyAdd(owned, owned', a, n, keys[j]);
    forall p | a <= p < a + n ensures PiIdx(p) in keys {
      PiIdxIs(p, keys[j]);
    }
    forall i | 0 <= i < |keys| ensures order[i] in mem' && mem'[order[i]].dirnum == PER_DIR * keys[i] + Tally(owned', keys[i]) {
      var k := keys[i];
      if i != j {
        assert order[i] != order[j] && keys[i] != keys[j];
        assert Tally(owned', k) == Tally(owned, k);
      } else {
        assert mem'[order[j]].dirnum == mem[order[j]].dirnum + n;
        assert Tally(owned', k) == Tally(owned, k) + n;
      }
    }
  }

  lemma ViewedRecount(mem: Memory, order: seq<Addr>, keys: seq<int>, pages: map<int, Entry>, d: Addr, n: int)
    requires Viewed(mem, order, keys, pages) && d in mem
    ensures Viewed(Recount(mem, d, n), order, keys, pages)
  {
    var mem' := Recount(mem, d, n);
    forall i | 0 <= i < |keys| ensures order[i] in mem' && ShowsDir(mem'[order[i]].base, keys[i], pages) {
      var k, a := keys[i], order[i];
      assert a in mem;
    }
  }

  lemma DirectoryAdd(mem: Memory, head: Addr, v: View,
                     j: nat, a: int, n: nat)
    requires Directory(mem, head, v) && j < |v.order| && RESERVED <= a
    requires PDI_MOD * v.keys[j] <= a && a + n <= PDI_MOD * (v.keys[j] + 1) && Interval(a, a + n) !! v.owned
    ensures v.order[j] in mem
    ensures Directory(Recount(mem, v.order[j], n), head, v.(owned := v.owned + Interval(a, a + n)))
    ensures KeepsDirs(mem, Recount(mem, v.order[j], n)) && Recount(mem, v.order[j], n).Keys == mem.Keys
  {
    DirsDistinct(mem, head, v);
    var d := v.order[j];
    assert d in mem by { var k := v.keys[j]; }
    var mem', owned' := Recount(mem, d, n), v.owned + Interval(a, a + n);
    NumberedAdd(mem, v.order, v.keys, v.owned, j, a, n);
    LinkedContent(mem, v.order, d, mem'[d]);
    ViewedRecount(mem, v.order, v.keys, v.pages, d, n);
    SameIndices(mem, mem', v.order, v.keys, v.owned, owned');
  }

  // ----- map_pages -----

  /** page_dir, last_dir and prev_dir, with the directory pages they lead to. */
  datatype Dirs = Dirs(mem: Memory, head: Addr, last: Addr, prev: Addr)

  ghost predicate Rep(d: Dirs, v: View) {
    (Directory(d.mem, d.head, v) && Busy(v.keys, v.owned) && CacheOK(d.mem, d.last, d.prev)) == true
  }

  lemma KeepsDirsTrans(m1: Memory, m2: Memory, m3: Memory)
    requires KeepsDirs(m1, m2) && KeepsDirs(m2, m3)
    ensures KeepsDirs(m1, m3)
  {
  }

  /** `idx` has a directory at position `j`, or belongs right after it. */
  ghost predicate Slotted(keys: seq<int>, j: int, idx: int) {
    0 <= j < |keys| && keys[j] <= idx && (j + 1 < |keys| ==> idx < keys[j + 1])
  }

  /** Where a turn of map_pages at `idx` finds its directory, or makes one. */
  ghost predicate Looking(mem: Memory, v: View, idx: int, j: int, spi: Addr, pi: Addr) {
    ( && |v.order| == |v.keys| && Slotted(v.keys, j, idx)
      && (v.keys[j] == idx ==> pi == v.order[j])
      && (v.keys[j] < idx ==> spi == v.order[j] && (pi == NULL || (pi in mem && PdIdx(mem[pi].dirnum) != idx)))) == true
  }

  /** Every directory but the first, and perhaps that of `idx`, owns a page. */
  ghost predicate BusyBut(keys: seq<int>, owned: set<int>, idx: int) {
    forall i {:trigger keys[i]} :: 0 < i < |keys| && keys[i] != idx ==> InDir(owned, keys[i]) != {}
  }

  /** The first half of a turn of the loop of map_pages: find or make the directory for `idx`. */
  method MakeDir(mem: Memory, head: Addr, idx: int, spi: Addr, pi: Addr, addr: Addr, ghost v: View, ghost j: nat)
    returns (mem': Memory, pi': Addr, made: bool, ghost v': View, ghost i: nat)
    requires Directory(mem, head, v) && Busy(v.keys, v.owned)
    requires Looking(mem, v, idx, j, spi, pi)
    requires v.keys[j] < idx ==> addr != NULL && addr !in mem
    ensures v'.pages == v.pages && v'.owned == v.owned && made == (v.keys[j] < idx)
    ensures Directory(mem', head, v') && BusyBut(v'.keys, v'.owned, idx) && KeepsDirs(mem, mem')
    ensures i < |v'.keys| && pi' == v'.order[i] && v'.keys[i] == idx
    ensures mem'.Keys == mem.Keys + if made then {addr} else {}
  {
    Decode(mem, v.order, v.keys, v.owned, j);
    if pi == NULL || PdIdx(mem[pi].dirnum) != idx {
      DirectoryInsert(mem, head, v, j, addr, idx);
      BusyInsert(v.keys, v.owned, j, idx);
      mem', pi', made := LinkDir(mem, spi, addr, idx), addr, true;
      v', i := v.(order := Insert(v.order, j + 1, addr), keys := Insert(v.keys, j + 1, idx)), j + 1;
    } else {
      mem', pi', made, v', i := mem, pi, false, v, j;
    }
  }

  /** The `n` pages from `a` lie in directory `idx` and are not yet counted. */
  ghost predicate Countable(mem: Memory, head: Addr, v: View, idx: int, a: int, n: int) {
    ( && Directory(mem, head, v) && Busy(v.keys, v.owned)
      && RESERVED <= a && 0 < n && PDI_MOD * idx <= a && a + n <= PDI_MOD * (idx + 1) && Interval(a, a + n) !! v.owned) == true
  }

  /** One turn of the loop of map_pages: the pages [a, b) of directory `idx` are counted in. */
  method MapStep(mem: Memory, head: Addr, idx: int, n: nat, spi: Addr, pi: Addr, addr: Addr,
                 ghost a: int, ghost v: View, ghost j: nat)
    returns (mem': Memory, pi': Addr, made: bool, ghost v': View, ghost i: nat)
    requires Countable(mem, head, v, idx, a, n)
    requires Looking(mem, v, idx, j, spi, pi)
    requires v.keys[j] < idx ==> addr != NULL && addr !in mem
    ensures v'.pages == v.pages && v'.owned == v.owned + Interval(a, a + n) && made == (v.keys[j] < idx)
    ensures Directory(mem', head, v') && Busy(v'.keys, v'.owned) && KeepsDirs(mem, mem')
    ensures i < |v'.keys| && pi' == v'.order[i] && v'.keys[i] == idx
    ensures mem'.Keys == mem.Keys + if made then {addr} else {}
  {
    var mem1;
    mem1, pi', made, v', i := MakeDir(mem, head, idx, spi, pi, addr, v, j);
    DirectoryAdd(mem1, head, v', i, a, n);
    BusyAdd(v'.keys, v'.owned, a, a + n, idx);
    mem' := Recount(mem1, pi', n);
    KeepsDirsTrans(mem, mem1, mem');
    v' := v'.(owned := v'.owned + Interval(a, a + n));
  }

  lemma BusyAdd(keys: seq<int>, owned: set<int>, a: int, b: int, idx: int)
    requires BusyBut(keys, owned, idx) && 0 <= a && PDI_MOD * idx <= a < b <= PDI_MOD * (idx + 1)
    ensures Busy(keys, owned + Interval(a, b))
  {
    PiIdxIs(a, idx);
    assert a in InDir(owned + Interval(a, b), idx);
    forall i | 0 < i < |keys| ensures InDir(owned + Interval(a, b), keys[i]) != {} {
      if keys[i] != idx {
        var p :| p in InDir(owned, keys[i]);
        assert p in InDir(owned + Interval(a, b), keys[i]);
      }
    }
  }

  lemma BusyInsert(keys: seq<int>, owned: set<int>, j: nat, idx: int)
    requires Busy(keys, owned) && j < |keys|
    ensures BusyBut(Insert(keys, j + 1, idx), owned, idx)
  {
    var keys' := Insert(keys, j + 1, idx);
    forall i | 0 < i < |keys'| && keys'[i] != idx ensures InDir(owned, keys'[i]) != {} {
      var i0 := if i <= j then i else i - 1;
      assert keys'[i] == keys[i0];
    }
  }

  /** After a turn at `idx`, `spi->next` is where the next turn must look. */
  lemma NextSlot(mem: Memory, head: Addr, v: View, i: nat, idx: int) returns (j: nat)
    requires Directory(mem, head, v) && i < |v.order| && idx == v.keys[i] + 1
    ensures v.order[i] in mem && Looking(mem, v, idx, j, v.order[i], mem[v.order[i]].next) && j < |v.keys|
  {
    var a := v.order[i];
    assert a in mem by { var k := v.keys[i]; }
    assert mem[a].next == Link(v.order, i + 1);
    if i + 1 < |v.keys| {
      Decode(mem, v.order, v.keys, v.owned, i + 1);
      assert v.keys[i] < v.keys[i + 1];
      assert i + 2 < |v.keys| ==> v.keys[i + 1] < v.keys[i + 2];
    }
    j := if i + 1 < |v.keys| && v.keys[i + 1] == idx then i + 1 else i;
  }

  /** The first page of a run that directory `k` or a later one holds. */
  function PartFrom(index: int, n: int, k: int): int {
    if PDI_MOD * k < index then index else if index + n < PDI_MOD * k then index + n else PDI_MOD * k
  }

  /** How many pages of a run map_pages counts into directory `idx`. */
  function PartSize(index: int, n: int, idx: int): int {
    var pidx, lidx := PiIdx(index), PiIdx(index + n - 1);
    if pidx < idx < lidx then PDI_MOD
    else if idx == pidx then (if pidx == lidx then n else PDI_MOD - PiOff(index))
    else PiOff(index + n - 1) + 1
  }

  lemma PartBounds(index: int, n: int, idx: int)
    requires 0 < n && 0 <= index && PiIdx(index) <= idx <= PiIdx(index + n - 1)
    ensures var a, b := PartFrom(index, n, idx), PartFrom(index, n, idx + 1);
      index <= a < b <= index + n && PDI_MOD * idx <= a && b <= PDI_MOD * (idx + 1) && PartSize(index, n, idx) == b - a
  {
  }

  lemma PartUnion(owned: set<int>, index: int, n: int, idx: int)
    requires 0 < n && 0 <= index && PiIdx(index) <= idx <= PiIdx(index + n - 1)
    ensures var a := PartFrom(index, n, idx);
      owned + Interval(index, a) + Interval(a, a + PartSize(index, n, idx)) == owned + Interval(index, PartFrom(index, n, idx + 1))
  {
    PartBounds(index, n, idx);
  }

  lemma PartEnds(index: int, n: int)
    requires 0 < n && 0 <= index
    ensures PartFrom(index, n, PiIdx(index)) == index && PartFrom(index, n, PiIdx(index + n - 1) + 1) == index + n
    ensures PiIdx(index) <= PiIdx(index + n - 1)
  {
  }

  /** The address of the `c`-th directory page in a region. */
  function DirPage(region: Addr, c: int): Addr { region + c }

  /** An mmap of directory pages returned memory that no directory uses. */
  ghost predicate FreshRegion(mem: Memory, region: Addr, from: int, count: int) {
    forall c {:trigger DirPage(region, c)} :: from <= c < count ==> DirPage(region, c) != NULL && DirPage(region, c) !in mem
  }

  lemma FreshRegionNext(mem: Memory, mem': Memory, region: Addr, cnt: int, count: int, made: bool)
    requires FreshRegion(mem, region, cnt, count) && mem'.Keys == mem.Keys + if made then {DirPage(region, cnt)} else {}
    ensures FreshRegion(mem', region, if made then cnt + 1 else cnt, count)
  {
  }

  /** How many directory pages map_pages asks for: one for each directory that the run touches after the first, and one if that is missing. */
  ghost function DirsNeeded(keys: seq<int>, index: int, n: int): int {
    PiIdx(index + n - 1) - PiIdx(index) + if PiIdx(index) in keys then 0 else 1
  }

  lemma SlottedKey(keys: seq<int>, j: nat, idx: int)
    requires Rising(keys) && Slotted(keys, j, idx)
    ensures idx in keys <==> keys[j] == idx
  {
    if idx in keys {
      var i :| 0 <= i < |keys| && keys[i] == idx;
    }
  }

  /** map_pages, for a run of `n` pages that mmap placed at `index`; `region` is its second mmap, NULL when refused. */
  method MapPages(d: Dirs, index: int, n: int, region: Addr, ghost v: View) returns (ok: bool, d': Dirs, ghost v': View)
    requires Rep(d, v) && RESERVED <= index && 0 < n && Interval(index, index + n) !! v.owned
    requires region != NULL ==> FreshRegion(d.mem, region, 0, DirsNeeded(v.keys, index, n))
    ensures Rep(d', v') && d'.head == d.head && KeepsDirs(d.mem, d'.mem) && v'.pages == v.pages
    ensures v'.owned == if ok then v.owned + Interval(index, index + n) else v.owned
    ensures ok <==> region != NULL || DirsNeeded(v.keys, index, n) == 0
    ensures !ok ==> d' == d && v' == v
  {
    var pidx, lidx := PiIdx(index), PiIdx(index + n - 1);
    PartEnds(index, n);
    var pi, r, j := Lookup(d.mem, d.head, d.last, d.prev, index, v);
    SlottedKey(v.keys, j, pidx);
    var dirs := lidx - pidx + if r != 0 then 1 else 0;
    if dirs > 0 && region == NULL {
      return false, d, v;
    }
    var cnt;
    d', cnt, v' := MapLoop(d, index, n, pi, region, dirs, v, j);
    ok := true;
  }

  /** The first `cnt` directory pages of the region that map_pages got for them. */
  ghost function PagesUsed(region: Addr, cnt: nat): set<Addr> {
    set k | 0 <= k < cnt :: DirPage(region, k)
  }

  /** `cnt` directory pages were taken from the region and the others are still unused. */
  ghost predicate Drawn(mem: Memory, mem': Memory, region: Addr, cnt: nat, dirs: int) {
    (mem'.Keys == mem.Keys + PagesUsed(region, cnt) && (region != NULL ==> FreshRegion(mem', region, cnt, dirs))) == true
  }

  lemma DrawnNext(mem: Memory, mid: Memory, mem': Memory, region: Addr, cnt: nat, dirs: int, made: bool, cnt': nat)
    requires Drawn(mem, mid, region, cnt, dirs) && mem'.Keys == mid.Keys + (if made then {DirPage(region, cnt)} else {})
    requires cnt' == if made then cnt + 1 else cnt
    ensures Drawn(mem, mem', region, cnt', dirs)
  {
    if region != NULL {
      FreshRegionNext(mid, mem', region, cnt, dirs, made);
    }
    if made {
      assert PagesUsed(region, cnt') == PagesUsed(region, cnt) + {DirPage(region, cnt)};
    }
  }

  lemma DrawnNone(mem: Memory, region: Addr, dirs: int)
    requires region != NULL ==> FreshRegion(mem, region, 0, dirs)
    ensures Drawn(mem, mem, region, 0, dirs)
  {
    assert PagesUsed(region, 0) == {};
  }

  /** The loop of map_pages over the directories that the run touches; `dirs` directory pages are at hand and `cnt` get used. */
  method MapLoop(d: Dirs, index: int, n: int, start: Addr, region: Addr, ghost dirs: int, ghost v: View, ghost j0: nat)
    returns (d': Dirs, cnt: nat, ghost v': View)
    requires Rep(d, v) && RESERVED <= index && 0 < n && Interval(index, index + n) !! v.owned
    requires Looking(d.mem, v, PiIdx(index), j0, start, start) && j0 < |v.keys|
    requires dirs == PiIdx(index + n - 1) - PiIdx(index) + if v.keys[j0] == PiIdx(index) then 0 else 1
    requires region == NULL ==> dirs == 0
    requires region != NULL ==> FreshRegion(d.mem, region, 0, dirs)
    ensures Rep(d', v') && d'.head == d.head && KeepsDirs(d.mem, d'.mem) && v'.pages == v.pages
    ensures v'.owned == v.owned + Interval(index, index + n)
    ensures cnt <= dirs && d'.mem.Keys == d.mem.Keys + PagesUsed(region, cnt)
  {
    PartEnds(index, n);
    var pidx, lidx := PiIdx(index), PiIdx(index + n - 1);
    d', v' := d, v;
    cnt := 0;
    DrawnNone(d.mem, region, dirs);
    var idx, pi, spi := pidx, start, start;
    ghost var j, spare := j0, lidx - pidx + 1 - dirs;
    while idx <= lidx
      invariant pidx <= idx <= lidx + 1 && (if idx == pidx then cnt == 0 else cnt <= idx - pidx - spare)
      invariant MapProgress(d, v, index, n, idx, d', v')
      invariant Drawn(d.mem, d'.mem, region, cnt, dirs)
      invariant Looking(d'.mem, v', idx, j, spi, pi)
      invariant idx == pidx ==> v' == v && j == j0
    {
      assert v'.keys[j] < idx ==> cnt < dirs;
      var made;
      ghost var i, mem := 0, d'.mem;
      idx, d', pi, made, v', i := MapTurn(d, v, index, n, idx, d', spi, pi, DirPage(region, cnt), v', j);
      var cnt' := if made then cnt + 1 else cnt;
      DrawnNext(d.mem, mem, d'.mem, region, cnt, dirs, made, cnt');
      cnt := cnt';
      j := NextSlot(d'.mem, d'.head, v', i, idx);
      spi := pi;
      pi := d'.mem[spi].next;
    }
    MapProgressEnd(d, v, index, n, idx, d', v');
  }

  lemma MapProgressEnd(d: Dirs, v: View, index: int, n: int, idx: int, d': Dirs, v': View)
    requires 0 < n && 0 <= index && MapProgress(d, v, index, n, idx, d', v') && idx == PiIdx(index + n - 1) + 1
    ensures Rep(d', v') && d'.head == d.head && KeepsDirs(d.mem, d'.mem) && v'.pages == v.pages
    ensures v'.owned == v.owned + Interval(index, index + n)
  {
    PartEnds(index, n);
  }

  /** The state of map_pages before the turn at `idx`: the pages that lie before directory `idx` have been counted. */
  ghost predicate MapProgress(d: Dirs, v: View, index: int, n: int, idx: int, d': Dirs, v': View) {
    ( && Rep(d', v') && d'.head == d.head && KeepsDirs(d.mem, d'.mem) && v'.pages == v.pages
      && v'.owned == v.owned + Interval(index, PartFrom(index, n, idx))) == true
  }

  method MapTurn(ghost d: Dirs, ghost v: View, index: int, n: int, idx: int, d1: Dirs, spi: Addr, pi: Addr, addr: Addr, ghost v1: View, ghost j: nat)
    returns (idx': int, d': Dirs, pi': Addr, made: bool, ghost v': View, ghost i: nat)
    requires RESERVED <= index && 0 < n && Interval(index, index + n) !! v.owned
    requires PiIdx(index) <= idx <= PiIdx(index + n - 1) && MapProgress(d, v, index, n, idx, d1, v1)
    requires Looking(d1.mem, v1, idx, j, spi, pi)
    requires v1.keys[j] < idx ==> addr != NULL && addr !in d1.mem
    ensures idx' == idx + 1 && MapProgress(d, v, index, n, idx', d', v')
    ensures i < |v'.keys| && pi' == v'.order[i] && v'.keys[i] == idx && made == (v1.keys[j] < idx)
    ensures d'.mem.Keys == d1.mem.Keys + if made then {addr} else {}
  {
    ghost var a := PartReady(d, v, index, n, idx, d1, v1);
    var mem;
    mem, pi', made, v', i := MapStep(d1.mem, d1.head, idx, PartSize(index, n, idx), spi, pi, addr, a, v1, j);
    d' := d1.(mem := mem);
    if idx == PiIdx(index) && pi' != d1.last {
      d' := d'.(prev := d1.last, last := pi');
    }
    idx' := idx + 1;
    MapAdvance(d, v, index, n, idx, idx', d1, v1, a, PartSize(index, n, idx), d', v', i, pi');
  }

  lemma PartReady(d: Dirs, v: View, index: int, n: int, idx: int, d1: Dirs, v1: View) returns (a: int)
    requires RESERVED <= index && 0 < n && Interval(index, index + n) !! v.owned
    requires PiIdx(index) <= idx <= PiIdx(index + n - 1) && MapProgress(d, v, index, n, idx, d1, v1)
    ensures a == PartFrom(index, n, idx) && Countable(d1.mem, d1.head, v1, idx, a, PartSize(index, n, idx))
  {
    PartBounds(index, n, idx);
    a := PartFrom(index, n, idx);
  }

  lemma MapAdvance(d: Dirs, v: View, index: int, n: int, idx: int, idx': int, d1: Dirs, v1: View,
                   a: int, part: int, d': Dirs, v': View, i: nat, pi: Addr)
    requires 0 < n && 0 <= index && PiIdx(index) <= idx <= PiIdx(index + n - 1) && MapProgress(d, v, index, n, idx, d1, v1) && idx' == idx + 1
    requires Directory(d'.mem, d'.head, v') && Busy(v'.keys, v'.owned) && KeepsDirs(d1.mem, d'.mem) && d'.head == d1.head
    requires i < |v'.order| && pi == v'.order[i]
    requires (d'.last == d1.last && d'.prev == d1.prev) || (d'.prev == d1.last && d'.last == pi)
    requires a == PartFrom(index, n, idx) && part == PartSize(index, n, idx)
    requires v'.pages == v1.pages && v'.owned == v1.owned + Interval(a, a + part)
    ensures MapProgress(d, v, index, n, idx', d', v')
  {
    KeepsDirsTrans(d.mem, d1.mem, d'.mem);
    PartUnion(v.owned, index, n, idx);
    assert CacheOK(d1.mem, d1.last, d1.prev);
    assert pi in d'.mem by { var k := v'.keys[i]; }
  }

  // ----- entries -----

  /** `pd[PI_OFF(p)] = e` in directory `d`. */
  function PutEntry(mem: Memory, d: Addr, o: int, e: Entry): Memory
    requires d in mem && 0 <= o < |mem[d].base|
  {
    mem[d := mem[d].(base := mem[d].base[o := e])]
  }

  function PutPage(pages: map<int, Entry>, p: int, e: Entry): map<int, Entry> {
    if e == NotMine then pages - {p} else pages[p := e]
  }

  lemma ViewedPut(mem: Memory, order: seq<Addr>, keys: seq<int>, pages: map<int, Entry>, j: nat, p: int, e: Entry)
    requires Viewed(mem, order, keys, pages) && Rising(keys) && DistinctDirs(order) && j < |keys| && PiIdx(p) == keys[j] && order[j] in mem
    ensures |mem[order[j]].base| == PDI_MOD && 0 <= PiOff(p) < PDI_MOD
    ensures Viewed(PutEntry(mem, order[j], PiOff(p), e), order, keys, PutPage(pages, p, e))
  {
    var d, o := order[j], PiOff(p);
    assert ShowsDir(mem[d].base, keys[j], pages);
    var mem', pages' := PutEntry(mem, d, o, e), PutPage(pages, p, e);
    forall i | 0 <= i < |keys| ensures order[i] in mem' && ShowsDir(mem'[order[i]].base, keys[i], pages') {
      var k := keys[i];
      if i == j {
        ShowsPut(mem[d].base, k, pages, p, e);
      } else {
        assert order[i] != order[j] && keys[i] != keys[j];
        ShowsElsewhere(mem[order[i]].base, k, pages, p, e);
      }
    }
  }

  lemma ShowsPut(base: seq<Entry>, k: int, pages: map<int, Entry>, p: int, e: Entry)
    requires ShowsDir(base, k, pages) && PiIdx(p) == k
    ensures 0 <= PiOff(p) < |base| && ShowsDir(base[PiOff(p) := e], k, PutPage(pages, p, e))
  {
  }

  lemma ShowsElsewhere(base: seq<Entry>, k: int, pages: map<int, Entry>, p: int, e: Entry)
    requires ShowsDir(base, k, pages) && PiIdx(p) != k
    ensures ShowsDir(base, k, PutPage(pages, p, e))
  {
    forall o | 0 <= o < PDI_MOD ensures base[o] == EntryAt(PutPage(pages, p, e), PDI_MOD * k + o) {
      PiIdxIs(PDI_MOD * k + o, k);
    }
  }

  /** Writing one entry of an owned page. */
  lemma DirectoryPut(mem: Memory, head: Addr, v: View, j: nat, p: int, e: Entry)
    requires Directory(mem, head, v) && j < |v.order| && PiIdx(p) == v.keys[j] && p in v.owned
    ensures v.order[j] in mem && |mem[v.order[j]].base| == PDI_MOD && 0 <= PiOff(p) < PDI_MOD
    ensures Directory(PutEntry(mem, v.order[j], PiOff(p), e), head, v.(pages := PutPage(v.pages, p, e)))
    ensures KeepsDirs(mem, PutEntry(mem, v.order[j], PiOff(p), e)) && PutEntry(mem, v.order[j], PiOff(p), e).Keys == mem.Keys
  {
    DirsDistinct(mem, head, v);
    var d := v.order[j];
    assert d in mem by { var k := v.keys[j]; }
    ViewedPut(mem, v.order, v.keys, v.pages, j, p, e);
    var mem' := PutEntry(mem, d, PiOff(p), e);
    LinkedContent(mem, v.order, d, mem'[d]);
    NumberedSame(mem, mem', v.order, v.keys, v.owned);
    SameIndices(mem, mem', v.order, v.keys, v.owned, v.owned);
  }

  lemma NumberedSame(mem: Memory, mem': Memory, order: seq<Addr>, keys: seq<int>, owned: set<int>)
    requires Numbered(mem, order, keys, owned) && mem'.Keys == mem.Keys && forall a :: a in mem ==> mem'[a].dirnum == mem[a].dirnum
    ensures Numbered(mem', order, keys, owned)
  {
    forall i | 0 <= i < |keys| ensures order[i] in mem' && mem'[order[i]].dirnum == PER_DIR * keys[i] + Tally(owned, keys[i]) {
      var k, a := keys[i], order[i];
      assert a in mem;
    }
  }

  lemma ShowsRead(base: seq<Entry>, k: int, pages: map<int, Entry>, p: int)
    requires ShowsDir(base, k, pages) && PiIdx(p) == k
    ensures 0 <= PiOff(p) < |base| && base[PiOff(p)] == EntryAt(pages, p)
  {
    var o := PiOff(p);
    assert PDI_MOD * k + o == p;
    assert base[o] == EntryAt(pages, PDI_MOD * k + o);
  }

  /** Reading an entry through its directory. */
  lemma EntryRead(mem: Memory, head: Addr, v: View, j: nat, p: int)
    requires Directory(mem, head, v) && j < |v.order| && PiIdx(p) == v.keys[j]
    ensures v.order[j] in mem && |mem[v.order[j]].base| == PDI_MOD && 0 <= PiOff(p) < PDI_MOD
    ensures mem[v.order[j]].base[PiOff(p)] == EntryAt(v.pages, p)
  {
    var k, d := v.keys[j], v.order[j];
    assert d in mem;
    ShowsRead(mem[d].base, k, v.pages, p);
  }

  // ----- walking a run of pages -----

  /** `pages'` is `pages` with [a, b) repainted: `first` at `a`, `rest` after it. */
  ghost predicate Repainted(pages: map<int, Entry>, pages': map<int, Entry>, a: int, b: int, first: Entry, rest: Entry) {
    forall p {:trigger EntryAt(pages', p)} ::
      EntryAt(pages', p) == if a <= p < b then (if p == a then first else rest) else EntryAt(pages, p)
  }

  /** A run handed out at `s`: First, then n - 1 times Follow, and no further Follow. */
  ghost predicate RunIs(pages: map<int, Entry>, s: int, n: int) {
    && 1 <= n && EntryAt(pages, s) == First && EntryAt(pages, s + n) != Follow
    && (forall p {:trigger EntryAt(pages, p)} :: s < p < s + n ==> EntryAt(pages, p) == Follow)
  }

  lemma RunEnds(pages: map<int, Entry>, s: int, n: int, q: int)
    requires RunIs(pages, s, n) && s < q <= s + n
    ensures EntryAt(pages, q) == Follow <==> q < s + n
  {
    if q == s + n {
      assert EntryAt(pages, q) != Follow;
    }
  }

  lemma FoundDir(mem: Memory, head: Addr, v: View, j: nat, p: int)
    requires Directory(mem, head, v) && p in v.owned && j < |v.keys| && v.keys[j] <= PiIdx(p) && (j + 1 < |v.keys| ==> PiIdx(p) < v.keys[j + 1])
    ensures v.keys[j] == PiIdx(p)
  {
    var i :| 0 <= i < |v.keys| && v.keys[i] == PiIdx(p);
    assert Rising(v.keys);
  }

  /** Stepping the directory pointer to page `p`, from the directory of page p - 1; NULL when `p` has no directory. */
  method Advance(mem: Memory, head: Addr, pi: Addr, p: int, ghost v: View, ghost j: nat) returns (pi': Addr, ghost j': nat)
    requires Directory(mem, head, v) && j < |v.order| && pi == v.order[j] && PiIdx(p - 1) == v.keys[j] && 1 <= p
    ensures pi' != NULL ==> j' < |v.order| && pi' == v.order[j'] && v.keys[j'] == PiIdx(p)
    ensures pi' == NULL ==> EntryAt(v.pages, p) == NotMine
    ensures p in v.owned ==> pi' != NULL
  {
    pi', j' := pi, j;
    assert v.order[j] in mem by { ghost var k := v.keys[j]; }
    if PiOff(p) == 0 {
      assert PiIdx(p) == PiIdx(p - 1) + 1;
      assert mem[pi].next == Link(v.order, j + 1);
      pi' := mem[pi].next;
      if j + 1 < |v.order| {
        Decode(mem, v.order, v.keys, v.owned, j + 1);
        assert v.keys[j] < v.keys[j + 1];
        j' := j + 1;
      }
      if pi' == NULL || PdIdx(mem[pi'].dirnum) != PiIdx(p) {
        NoDir(mem, head, v, j, p);
        pi' := NULL;
      }
    } else {
      assert PiIdx(p) == PiIdx(p - 1);
      assert v.order[j] != NULL;
    }
  }

  lemma NoDir(mem: Memory, head: Addr, v: View, j: nat, p: int)
    requires Directory(mem, head, v) && j < |v.keys| && v.keys[j] < PiIdx(p) && (j + 1 < |v.keys| ==> PiIdx(p) < v.keys[j + 1])
    ensures p !in v.owned && EntryAt(v.pages, p) == NotMine
  {
    if p in v.owned {
      FoundDir(mem, head, v, j, p);
    }
  }

  /** `pd[PI_OFF(p)] = e` for the page after the one `pi` was at. */
  method PaintNext(mem: Memory, head: Addr, pi: Addr, p: int, e: Entry, ghost v: View, ghost j: nat)
    returns (mem': Memory, pi': Addr, ghost v': View, ghost j': nat)
    requires Directory(mem, head, v) && j < |v.order| && pi == v.order[j] && PiIdx(p - 1) == v.keys[j] && 1 <= p && p in v.owned
    ensures v' == v.(pages := PutPage(v.pages, p, e)) && Directory(mem', head, v') && KeepsDirs(mem, mem') && mem'.Keys == mem.Keys
    ensures j' < |v.order| && pi' == v.order[j'] && v.keys[j'] == PiIdx(p)
  {
    pi', j' := Advance(mem, head, pi, p, v, j);
    DirectoryPut(mem, head, v, j', p, e);
    mem' := PutEntry(mem, pi', PiOff(p), e);
    v' := v.(pages := PutPage(v.pages, p, e));
  }

  lemma RepaintedStep(pages: map<int, Entry>, mid: map<int, Entry>, pages': map<int, Entry>, a: int, b: int, b': int, first: Entry, rest: Entry)
    requires a < b && b' == b + 1 && Repainted(pages, mid, a, b, first, rest) && pages' == PutPage(mid, b, rest)
    ensures Repainted(pages, pages', a, b', first, rest)
  {
    forall p ensures EntryAt(pages', p) == if a <= p < b' then (if p == a then first else rest) else EntryAt(pages, p) {
      assert p != b ==> EntryAt(pages', p) == EntryAt(mid, p);
    }
  }

  method MarkStep(ghost mem0: Memory, ghost v0: View, ghost index: int, mem: Memory, head: Addr, pi: Addr, q: int, ghost v: View, ghost j: nat)
    returns (mem': Memory, pi': Addr, ghost v': View, ghost j': nat)
    requires Directory(mem, head, v) && j < |v.order| && pi == v.order[j] && PiIdx(q - 1) == v.keys[j] && 1 <= q && q in v.owned
    requires index < q && KeepsDirs(mem0, mem) && Repainted(v0.pages, v.pages, index, q, First, Follow)
    ensures v' == v.(pages := v'.pages) && Directory(mem', head, v') && KeepsDirs(mem0, mem') && mem'.Keys == mem.Keys
    ensures j' < |v.order| && pi' == v.order[j'] && v.keys[j'] == PiIdx(q)
    ensures Repainted(v0.pages, v'.pages, index, q + 1, First, Follow)
  {
    mem', pi', v', j' := PaintNext(mem, head, pi, q, Follow, v, j);
    KeepsDirsTrans(mem0, mem, mem');
    RepaintedStep(v0.pages, v.pages, v'.pages, index, q, q + 1, First, Follow);
  }

  /** The marking loop of malloc_pages: First at `index`, Follow on the rest of the run. */
  method MarkRun(mem: Memory, head: Addr, pi0: Addr, index: int, n: int, ghost v: View, ghost j0: nat)
    returns (mem': Memory, ghost v': View)
    requires Directory(mem, head, v) && j0 < |v.order| && pi0 == v.order[j0] && PiIdx(index) == v.keys[j0]
    requires RESERVED <= index && 1 <= n && Interval(index, index + n) <= v.owned
    ensures v' == v.(pages := v'.pages) && Directory(mem', head, v') && KeepsDirs(mem, mem') && mem'.Keys == mem.Keys
    ensures Repainted(v.pages, v'.pages, index, index + n, First, Follow)
  {
    assert index in Interval(index, index + n);
    DirectoryPut(mem, head, v, j0, index, First);
    mem', v' := PutEntry(mem, pi0, PiOff(index), First), v.(pages := PutPage(v.pages, index, First));
    var q, pi := index + 1, pi0;
    ghost var j: nat := j0;
    while q < index + n
      invariant index < q <= index + n && j < |v.order| && pi == v.order[j] && PiIdx(q - 1) == v.keys[j]
      invariant v' == v.(pages := v'.pages) && Directory(mem', head, v') && KeepsDirs(mem, mem') && mem'.Keys == mem.Keys
      invariant Repainted(v.pages, v'.pages, index, q, First, Follow)
    {
      mem', pi, v', j := MarkStep(mem, v, index, mem', head, pi, q, v', j);
      q := q + 1;
    }
  }

  /** The pointer `pi` stands at the directory of page `q`, or is NULL because `q` has none. */
  ghost predicate AtPage(v: View, pi: Addr, j: int, q: int) {
    && (pi != NULL ==> 0 <= j < |v.order| && |v.order| == |v.keys| && pi == v.order[j] && v.keys[j] == PiIdx(q))
    && (pi == NULL ==> EntryAt(v.pages, q) == NotMine)
  }

  /** What the scan of free_pages has done once it stands at page `q`. */
  ghost predicate Released(mem: Memory, head: Addr, v: View, index: int, q: int, mem': Memory, v': View) {
    ( && Directory(mem', head, v') && v' == v.(pages := v'.pages) && KeepsDirs(mem, mem') && mem'.Keys == mem.Keys
      && Repainted(v.pages, v'.pages, index, q, Free, Free)) == true
  }

  /** The scan that opens free_pages: every page of the run at `index` is marked Free, and the run's length recovered. */
  method ReleaseRun(mem: Memory, head: Addr, pi0: Addr, index: int, ghost v: View, ghost j0: nat, ghost n0: int)
    returns (n: int, mem': Memory, ghost v': View)
    requires Directory(mem, head, v) && j0 < |v.order| && pi0 == v.order[j0] && PiIdx(index) == v.keys[j0]
    requires RESERVED <= index && RunIs(v.pages, index, n0)
    ensures n == n0 && Released(mem, head, v, index, index + n, mem', v')
  {
    var q, pi;
    ghost var j: nat := 0;
    mem', q, pi, v', j := ReleaseFirst(mem, head, pi0, index, v, j0);
    while pi != NULL && mem'[pi].base[PiOff(q)] == Follow
      invariant index < q <= index + n0 && Released(mem, head, v, index, q, mem', v') && AtPage(v', pi, j, q)
      invariant pi != NULL ==> pi in mem' && |mem'[pi].base| == PDI_MOD && mem'[pi].base[PiOff(q)] == EntryAt(v.pages, q)
      invariant pi == NULL ==> EntryAt(v.pages, q) == NotMine
      decreases index + n0 - q
    {
      RunEnds(v.pages, index, n0, q);
      mem', q, pi, v', j := ReleaseStep(mem, head, v, index, mem', pi, q, v', j);
    }
    RunEnds(v.pages, index, n0, q);
    n := q - index;
  }

  method ReleaseFirst(mem: Memory, head: Addr, pi: Addr, index: int, ghost v: View, ghost j: nat)
    returns (mem': Memory, q: int, pi': Addr, ghost v': View, ghost j': nat)
    requires Directory(mem, head, v) && j < |v.order| && pi == v.order[j] && PiIdx(index) == v.keys[j]
    requires RESERVED <= index && EntryAt(v.pages, index) == First
    ensures q == index + 1 && Released(mem, head, v, index, q, mem', v') && AtPage(v', pi', j', q)
    ensures pi' != NULL ==> pi' in mem' && |mem'[pi'].base| == PDI_MOD && mem'[pi'].base[PiOff(q)] == EntryAt(v.pages, q)
    ensures pi' == NULL ==> EntryAt(v.pages, q) == NotMine
  {
    DirectoryPut(mem, head, v, j, index, Free);
    mem', v', q := PutEntry(mem, pi, PiOff(index), Free), v.(pages := PutPage(v.pages, index, Free)), index + 1;
    ReleasedOne(mem, head, v, index, q, mem', v');
    pi', j' := AdvanceRead(mem', head, pi, q, v', j);
  }

  lemma ReleasedOne(mem: Memory, head: Addr, v: View, index: int, q: int, mem': Memory, v': View)
    requires Directory(mem', head, v') && v' == v.(pages := PutPage(v.pages, index, Free)) && KeepsDirs(mem, mem') && mem'.Keys == mem.Keys
    requires 0 <= index && q == index + 1
    ensures Released(mem, head, v, index, q, mem', v') && EntryAt(v'.pages, q) == EntryAt(v.pages, q)
  {
  }

  /** Advance, and what the directory it arrives at says about the page. */
  method AdvanceRead(mem: Memory, head: Addr, pi: Addr, p: int, ghost v: View, ghost j: nat) returns (pi': Addr, ghost j': nat)
    requires Directory(mem, head, v) && j < |v.order| && pi == v.order[j] && PiIdx(p - 1) == v.keys[j] && RESERVED < p
    ensures AtPage(v, pi', j', p)
    ensures pi' != NULL ==> pi' in mem && |mem[pi'].base| == PDI_MOD && mem[pi'].base[PiOff(p)] == EntryAt(v.pages, p)
    ensures pi' == NULL ==> EntryAt(v.pages, p) == NotMine
  {
    pi', j' := Advance(mem, head, pi, p, v, j);
    if pi' != NULL {
      EntryRead(mem, head, v, j', p);
    }
  }

  method ReleaseStep(ghost mem0: Memory, head: Addr, ghost v0: View, ghost index: int, mem: Memory, pi: Addr, q: int, ghost v: View, ghost j: nat)
    returns (mem': Memory, q': int, pi': Addr, ghost v': View, ghost j': nat)
    requires RESERVED <= index < q && Released(mem0, head, v0, index, q, mem, v) && AtPage(v, pi, j, q) && pi != NULL
    requires EntryAt(v0.pages, q) == Follow
    ensures q' == q + 1 && Released(mem0, head, v0, index, q', mem', v') && AtPage(v', pi', j', q')
    ensures pi' != NULL ==> pi' in mem' && |mem'[pi'].base| == PDI_MOD && mem'[pi'].base[PiOff(q')] == EntryAt(v0.pages, q')
    ensures pi' == NULL ==> EntryAt(v0.pages, q') == NotMine
  {
    assert EntryAt(v.pages, q) == Follow;
    DirectoryPut(mem, head, v, j, q, Free);
    mem', v', q' := PutEntry(mem, pi, PiOff(q), Free), v.(pages := PutPage(v.pages, q, Free)), q + 1;
    RepaintedStep(v0.pages, v.pages, v'.pages, index, q, q', Free, Free);
    KeepsDirsTrans(mem0, mem, mem');
    pi', j' := Advance(mem', head, pi, q', v', j);
    if pi' != NULL {
      EntryRead(mem', head, v', j', q');
    }
    assert EntryAt(v'.pages, q') == EntryAt(v0.pages, q');
  }

  /** The scan of irealloc: the length of the run at `index`, by reading alone. */
  method CountRun(mem: Memory, head: Addr, pi0: Addr, index: int, ghost v: View, ghost j0: nat, ghost n0: int) returns (n: int)
    requires Directory(mem, head, v) && j0 < |v.order| && pi0 == v.order[j0] && PiIdx(index) == v.keys[j0]
    requires RESERVED <= index && RunIs(v.pages, index, n0)
    ensures n == n0
  {
    var q := index + 1;
    var pi;
    ghost var j: nat := 0;
    pi, j := Advance(mem, head, pi0, q, v, j0);
    n := 1;
    while true
      invariant q == index + n && 1 <= n <= n0 && AtPage(v, pi, j, q)
      decreases n0 - n
    {
      if pi == NULL { break; }
      EntryRead(mem, head, v, j, q);
      RunEnds(v.pages, index, n0, q);
      if mem[pi].base[PiOff(q)] != Follow { break; }
      q, n := q + 1, n + 1;
      pi, j := Advance(mem, head, pi, q, v, j);
    }
    RunEnds(v.pages, index, n0, q);
  }

  // ----- giving pages back -----

  lemma NumberedDrop(mem: Memory, order: seq<Addr>, keys: seq<int>, owned: set<int>, j: nat, p: int)
    requires Numbered(mem, order, keys, owned) && DistinctDirs(order) && Rising(keys)
    requires j < |order| && order[j] in mem && p in owned && PiIdx(p) == keys[j]
    ensures Numbered(Recount(mem, order[j], -1), order, keys, owned - {p})
  {
    var mem', owned' := Recount(mem, order[j], -1), owned - {p};
    TallyDrop(owned, owned', p);
    forall i | 0 <= i < |keys| ensures order[i] in mem' && mem'[order[i]].dirnum == PER_DIR * keys[i] + Tally(owned', keys[i]) {
      var k := keys[i];
      if i != j {
        assert order[i] != order[j] && keys[i] != keys[j];
        assert Tally(owned', k) == Tally(owned, k);
      } else {
        assert mem'[order[j]].dirnum == mem[order[j]].dirnum - 1;
        assert Tally(owned', k) == Tally(owned, k) - 1;
      }
    }
  }

  /** One page unmapped: its entry becomes NotMine and dirnum is decremented. */
  function DropEntry(mem: Memory, d: Addr, o: int): Memory
    requires d in mem && 0 <= o < |mem[d].base|
  {
    Recount(PutEntry(mem, d, o, NotMine), d, -1)
  }

  function DropPage(v: View, p: int): View {
    v.(pages := v.pages - {p}, owned := v.owned - {p})
  }

  lemma DirectoryDrop(mem: Memory, head: Addr, v: View, j: nat, p: int)
    requires Directory(mem, head, v) && j < |v.order| && PiIdx(p) == v.keys[j] && p in v.owned
    ensures v.order[j] in mem && |mem[v.order[j]].base| == PDI_MOD && 0 <= PiOff(p) < PDI_MOD
    ensures Directory(DropEntry(mem, v.order[j], PiOff(p)), head, DropPage(v, p))
    ensures KeepsDirs(mem, DropEntry(mem, v.order[j], PiOff(p))) && DropEntry(mem, v.order[j], PiOff(p)).Keys == mem.Keys
  {
    DirectoryPut(mem, head, v, j, p, NotMine);
    var d := v.order[j];
    var mem1 := PutEntry(mem, d, PiOff(p), NotMine);
    var mem', v' := DropEntry(mem, d, PiOff(p)), DropPage(v, p);
    DirsDistinct(mem, head, v);
    NumberedDrop(mem1, v.order, v.keys, v.owned, j, p);
    LinkedContent(mem1, v.order, d, mem'[d]);
    ViewedRecount(mem1, v.order, v.keys, v'.pages, d, -1);
    SameIndices(mem1, mem', v.order, v.keys, v.owned, v'.owned);
    KeepsDirsTrans(mem, mem1, mem');
  }

  /** The directories of `mem'` are directories of `mem`, for the same indices. */
  ghost predicate Shrinks(mem: Memory, mem': Memory) {
    forall a {:trigger mem'[a]} {:trigger a in mem'} :: a in mem' ==> a in mem && PdIdx(mem'[a].dirnum) == PdIdx(mem[a].dirnum)
  }

  lemma ShrinksTrans(m1: Memory, m2: Memory, m3: Memory)
    requires Shrinks(m1, m2) && Shrinks(m2, m3)
    ensures Shrinks(m1, m3)
  {
  }

  lemma UnlinkShrinks(mem: Memory, pi: Addr)
    requires pi in mem && (mem[pi].next != NULL ==> mem[pi].next in mem) && (mem[pi].prev != NULL ==> mem[pi].prev in mem)
    ensures Shrinks(mem, UnlinkDir(mem, pi)) && UnlinkDir(mem, pi).Keys == mem.Keys - {pi}
  {
  }

  /** A directory page is unlinked and unmapped exactly when no page is left in it. */
  method ReapDir(mem: Memory, head: Addr, pi: Addr, ghost v: View, ghost j: nat) returns (reaped: bool, mem': Memory, ghost v': View)
    requires Directory(mem, head, v) && j < |v.order| && pi == v.order[j] && BusyBut(v.keys, v.owned, v.keys[j])
    ensures reaped <==> v.keys[j] != 0 && InDir(v.owned, v.keys[j]) == {}
    ensures reaped ==> j > 0 && pi !in mem' && v' == v.(order := Delete(v.order, j), keys := Delete(v.keys, j))
    ensures !reaped ==> mem' == mem && v' == v
    ensures Directory(mem', head, v') && Busy(v'.keys, v'.owned) && Shrinks(mem, mem')
  {
    Decode(mem, v.order, v.keys, v.owned, j);
    assert j > 0 ==> v.keys[0] < v.keys[j];
    reaped := PdOff(mem[pi].dirnum) == 0;
    if reaped {
      DirectoryDelete(mem, head, v, j);
      UnlinkShrinks(mem, pi);
      BusyDelete(v.keys, v.owned, j);
      mem', v' := UnlinkDir(mem, pi), v.(order := Delete(v.order, j), keys := Delete(v.keys, j));
    } else {
      mem', v' := mem, v;
      assert Busy(v.keys, v.owned) by {
        forall i | 0 < i < |v.keys| ensures InDir(v.owned, v.keys[i]) != {} {
          assert i != j ==> v.keys[i] != v.keys[j];
        }
      }
    }
  }

  lemma BusyDelete(keys: seq<int>, owned: set<int>, j: nat)
    requires Rising(keys) && 0 < j < |keys| && BusyBut(keys, owned, keys[j])
    ensures Busy(Delete(keys, j), owned)
  {
    var keys' := Delete(keys, j);
    forall i | 0 < i < |keys'| ensures InDir(owned, keys'[i]) != {} {
      var i0 := if i < j then i else i + 1;
      assert keys'[i] == keys[i0] && keys[i0] != keys[j];
    }
  }

  /** The directory under `pi` is the only one that may be left without pages. */
  ghost predicate Trimming(mem: Memory, head: Addr, v: View, pi: Addr, j: int) {
    ( && Directory(mem, head, v)
      && (pi != NULL ==> 0 <= j < |v.order| && |v.order| == |v.keys| && pi == v.order[j] && BusyBut(v.keys, v.owned, v.keys[j]))
      && (pi == NULL ==> Busy(v.keys, v.owned))) == true
  }

  /** One turn of the unmapping loop of free_pages. */
  method TrimStep(mem: Memory, head: Addr, pi: Addr, i: int, ghost v: View, ghost j: nat)
    returns (mem': Memory, pi': Addr, stop: bool, ghost v': View, ghost j': nat)
    requires Trimming(mem, head, v, pi, j) && pi != NULL && v.keys[j] == PiIdx(i) && i in v.pages && RESERVED <= i
    ensures Trimming(mem', head, v', pi', j') && Shrinks(mem, mem')
    ensures v'.owned == v.owned - {i} && v'.pages == v.pages - {i}
    ensures stop ==> i + 1 !in v.owned
    ensures !stop ==> pi' != NULL && v'.keys[j'] == PiIdx(i + 1)
  {
    var mem1;
    ghost var v1;
    mem1, v1 := UnmapPage(mem, head, pi, i, v, j);
    if PiOff(i + 1) == 0 {
      assert PiIdx(i + 1) == PiIdx(i) + 1;
      mem', pi', v', j' := LeaveDir(mem1, head, pi, v1, j);
      ShrinksTrans(mem, mem1, mem');
      stop := pi' == NULL || PdIdx(mem'[pi'].dirnum) != PiIdx(i + 1);
    } else {
      assert PiIdx(i + 1) == PiIdx(i);
      mem', pi', v', j', stop := mem1, pi, v1, j, false;
    }
  }

  /** `if (pd[PI_OFF(i)] != MALLOC_NOT_MINE) { pd[PI_OFF(i)] = MALLOC_NOT_MINE; pi->dirnum--; }` */
  method UnmapPage(mem: Memory, head: Addr, pi: Addr, i: int, ghost v: View, ghost j: nat) returns (mem': Memory, ghost v': View)
    requires Trimming(mem, head, v, pi, j) && pi != NULL && v.keys[j] == PiIdx(i) && i in v.pages
    ensures v' == DropPage(v, i) && Trimming(mem', head, v', pi, j) && Shrinks(mem, mem')
  {
    EntryRead(mem, head, v, j, i);
    DirectoryDrop(mem, head, v, j, i);
    BusyDrop(v.keys, v.owned, i);
    mem', v' := DropEntry(mem, pi, PiOff(i)), DropPage(v, i);
  }

  lemma BusyDrop(keys: seq<int>, owned: set<int>, p: int)
    requires BusyBut(keys, owned, PiIdx(p))
    ensures BusyBut(keys, owned - {p}, PiIdx(p))
  {
    forall i | 0 < i < |keys| && keys[i] != PiIdx(p) ensures InDir(owned - {p}, keys[i]) != {} {
      assert InDir(owned - {p}, keys[i]) == InDir(owned, keys[i]);
    }
  }

  /** At the end of a directory: reap it if empty, and move to the next one on the list. */
  method LeaveDir(mem: Memory, head: Addr, pi: Addr, ghost v: View, ghost j: nat) returns (mem': Memory, pi': Addr, ghost v': View, ghost j': nat)
    requires Trimming(mem, head, v, pi, j) && pi != NULL
    ensures v'.owned == v.owned && v'.pages == v.pages && Trimming(mem', head, v', pi', j') && Shrinks(mem, mem')
    ensures pi' != NULL ==> pi' in mem' && PdIdx(mem'[pi'].dirnum) == v'.keys[j'] && v.keys[j] < v'.keys[j']
    ensures forall p :: p in v.owned && PiIdx(p) == v.keys[j] + 1 ==> pi' != NULL && v'.keys[j'] == PiIdx(p)
  {
    assert v.order[j] in mem by { ghost var k := v.keys[j]; }
    assert mem[pi].next == Link(v.order, j + 1);
    pi' := mem[pi].next;
    var reaped;
    reaped, mem', v' := ReapDir(mem, head, pi, v, j);
    j' := if reaped then j else j + 1;
    NextOnList(mem, mem', head, v, v', pi', j, j', reaped);
  }

  lemma NextOnList(mem: Memory, mem': Memory, head: Addr, v: View, v': View, pi: Addr, j: nat, j': nat, reaped: bool)
    requires Directory(mem, head, v) && Directory(mem', head, v') && Busy(v'.keys, v'.owned) && v'.owned == v.owned && j < |v.order|
    requires pi == Link(v.order, j + 1)
    requires if reaped then j' == j && v'.order == Delete(v.order, j) && v'.keys == Delete(v.keys, j) else j' == j + 1 && v' == v
    ensures pi != NULL ==> j' < |v'.order| && pi == v'.order[j'] && pi in mem' && PdIdx(mem'[pi].dirnum) == v'.keys[j'] && v.keys[j] < v'.keys[j']
    ensures forall p :: p in v.owned && PiIdx(p) == v.keys[j] + 1 ==> pi != NULL && v'.keys[j'] == PiIdx(p)
  {
    if j + 1 < |v.order| {
      NextAt(mem, head, v, j);
      assert v'.keys[j'] == v.keys[j + 1] && v'.order[j'] == v.order[j + 1];
      Decode(mem', v'.order, v'.keys, v'.owned, j');
    }
    forall p | p in v.owned && PiIdx(p) == v.keys[j] + 1 ensures pi != NULL && v'.keys[j'] == PiIdx(p) {
      NextOwned(mem, head, v, j, p);
    }
  }

  lemma NextAt(mem: Memory, head: Addr, v: View, j: nat)
    requires Directory(mem, head, v) && j + 1 < |v.order|
    ensures v.order[j + 1] != NULL && v.keys[j] < v.keys[j + 1]
  {
    var a, k := v.order[j + 1], v.keys[j + 1];
    assert a in mem;
  }

  lemma NextOwned(mem: Memory, head: Addr, v: View, j: nat, p: int)
    requires Directory(mem, head, v) && j < |v.order| && p in v.owned && PiIdx(p) == v.keys[j] + 1
    ensures j + 1 < |v.order| && v.keys[j + 1] == PiIdx(p)
  {
    var i :| 0 <= i < |v.keys| && v.keys[i] == PiIdx(p);
    NextKey(v.keys, i, j);
  }

  lemma NextKey(keys: seq<int>, i: nat, j: nat)
    requires Rising(keys) && i < |keys| && j < |keys| && keys[i] == keys[j] + 1
    ensures i == j + 1
  {
    if j + 1 < |keys| {
      assert keys[j] < keys[j + 1];
    }
  }

  /** `for (pi = pf->pdir; pi != NULL && PD_IDX(pi->dirnum) < pidx; pi = pi->next);` */
  method WalkTo(mem: Memory, head: Addr, start: Addr, pidx: int, ghost v: View) returns (pi: Addr, ghost j: nat)
    requires Directory(mem, head, v) && start in mem && PdIdx(mem[start].dirnum) <= pidx && pidx in v.keys
    ensures pi != NULL && j < |v.order| && pi == v.order[j] && v.keys[j] == pidx
  {
    pi := start;
    j := Position(mem, v.order, v.keys, v.owned, start);
    ghost var goal :| 0 <= goal < |v.keys| && v.keys[goal] == pidx;
    assert start != NULL by { ghost var a := v.order[j]; assert a in mem; }
    while pi != NULL && PdIdx(mem[pi].dirnum) < pidx
      invariant j <= goal && pi == v.order[j] && pi != NULL && pi in mem && PdIdx(mem[pi].dirnum) == v.keys[j]
      decreases goal - j
    {
      assert j < goal && mem[pi].next == Link(v.order, j + 1);
      Decode(mem, v.order, v.keys, v.owned, j + 1);
      pi, j := mem[pi].next, j + 1;
    }
  }

  /** The unmapping part of free_pages: [index, end) is given back, and with it every directory it leaves empty. */
  method Trim(mem: Memory, head: Addr, pdir: Addr, index: int, end: int, ghost v: View) returns (mem': Memory, ghost v': View)
    requires Directory(mem, head, v) && Busy(v.keys, v.owned) && pdir in mem && PdIdx(mem[pdir].dirnum) <= PiIdx(index)
    requires RESERVED <= index < end && Interval(index, end) <= v.pages.Keys
    ensures Directory(mem', head, v') && Busy(v'.keys, v'.owned) && Shrinks(mem, mem')
    ensures v'.owned == v.owned - Interval(index, end) && v'.pages == v.pages - Interval(index, end)
  {
    assert index in Interval(index, end);
    var pi;
    ghost var j: nat := 0;
    pi, j := WalkTo(mem, head, pdir, PiIdx(index), v);
    mem', v' := mem, v;
    var i, stop := index, false;
    while i < end && !stop
      invariant index <= i <= end && Trimmed(mem, head, v, index, i, mem', v', pi, j)
      invariant stop ==> i == end
      invariant i < end ==> pi != NULL && v'.keys[j] == PiIdx(i)
    {
      mem', pi, i, stop, v', j := TrimTurn(mem, head, v, index, end, mem', pi, i, v', j);
    }
    ghost var mem1, v1 := mem', v';
    if pi != NULL {
      var reaped;
      reaped, mem', v' := ReapDir(mem', head, pi, v', j);
      ShrinksTrans(mem, mem1, mem');
    }
    assert v1.owned == v.owned - Interval(index, end) && v1.pages == v.pages - Interval(index, end);
  }

  ghost predicate Trimmed(mem: Memory, head: Addr, v: View, index: int, i: int, mem': Memory, v': View, pi: Addr, j: int) {
    ( && Trimming(mem', head, v', pi, j) && Shrinks(mem, mem')
      && v'.owned == v.owned - Interval(index, i) && v'.pages == v.pages - Interval(index, i)) == true
  }

  method TrimTurn(ghost mem0: Memory, head: Addr, ghost v0: View, ghost index: int, end: int, mem: Memory, pi: Addr, i: int, ghost v: View, ghost j: nat)
    returns (mem': Memory, pi': Addr, i': int, stop: bool, ghost v': View, ghost j': nat)
    requires RESERVED <= index <= i < end && Interval(index, end) <= v0.pages.Keys && v0.pages.Keys <= v0.owned
    requires Trimmed(mem0, head, v0, index, i, mem, v, pi, j) && pi != NULL && v.keys[j] == PiIdx(i)
    ensures i' == i + 1 && Trimmed(mem0, head, v0, index, i', mem', v', pi', j')
    ensures stop ==> i' == end
    ensures i' < end ==> pi' != NULL && v'.keys[j'] == PiIdx(i')
  {
    assert i in Interval(index, end) && i !in Interval(index, i);
    mem', pi', stop, v', j' := TrimStep(mem, head, pi, i, v, j);
    i' := i + 1;
    ShrinksTrans(mem0, mem, mem');
    assert i + 1 < end ==> i + 1 in Interval(index, end);
    TrimSets(v0.owned, v0.pages, index, i, i');
  }

  lemma TrimSets(owned: set<int>, pages: map<int, Entry>, index: int, i: int, i': int)
    requires 0 <= index <= i && i' == i + 1
    ensures owned - Interval(index, i) - {i} == owned - Interval(index, i')
    ensures pages - Interval(index, i) - {i} == pages - Interval(index, i')
  {
    assert Interval(index, i') == Interval(index, i) + {i};
  }

  /** A directory that still has a page survives any shrinking. */
  lemma Survives(mem: Memory, mem': Memory, head: Addr, v: View, v': View, a: Addr, p: int)
    requires Directory(mem, head, v) && Directory(mem', head, v') && Shrinks(mem, mem')
    requires a in mem && PdIdx(mem[a].dirnum) == PiIdx(p) && p in v'.owned
    ensures a in mem' && PdIdx(mem'[a].dirnum) == PiIdx(p)
  {
    var i :| 0 <= i < |v'.keys| && v'.keys[i] == PiIdx(p);
    Decode(mem', v'.order, v'.keys, v'.owned, i);
    var b := v'.order[i];
    assert b in mem';
    var x := Position(mem, v.order, v.keys, v.owned, a);
    var y := Position(mem, v.order, v.keys, v.owned, b);
    assert x == y by { assert Rising(v.keys); }
  }
}
