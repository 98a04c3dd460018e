/**
  Chunk pages of ext/OpenBSD_malloc_Linux.c: pages cut into power-of-two chunks,
  each described by a pginfo record with a bitmap, and one list per chunk size of
  the pages that still have a free chunk.
 */
module ChunkPool {

  import opened Chains
  import opened Bitmap

  const PAGE: int := 4096
  const MINSIZE: int := 16
  const MAXSIZE: int := 2048
  const BUCKETS: int := 12

  datatype Pginfo = Pginfo(page: int, size: int, shift: nat, free: int, total: int, bits: seq<Word>)

  function Pow2(n: nat): (r: nat)
    ensures 1 <= r
  {
    if n == 0 then 1 else 2 * Pow2(n - 1)
  }

  // ----- the layout of a page of chunks -----

  /** Bucket 0 serves malloc(0); the others are the shifts from malloc_minsize to malloc_maxsize. */
  predicate IsBucket(b: int) {
    b == 0 || 4 <= b <= 11
  }

  function ShiftOf(b: nat): nat { if b == 0 then 4 else b }

  function SizeOf(b: nat): int { if b == 0 then 0 else Pow2(b) }

  /** `malloc_pagesize >> b` */
  function PageOver(b: nat): nat { if b <= 12 then Pow2(12 - b) else 0 }

  /** Chunk positions on a page. */
  function Slots(b: nat): nat { PageOver(ShiftOf(b)) }

  function AdminWords(b: nat): nat { (PageOver(b) + BITS - 1) / BITS }

  /** The length `l` of the admin structure. */
  function AdminLen(b: nat): nat { 24 + 8 * AdminWords(b) }

  /** Whether the pginfo lives in the page it describes. */
  predicate InPage(b: nat) {
    b != 0 && Pow2(b) <= AdminLen(b) + AdminLen(b)
  }

  /** Units that hold `len` bytes. */
  function Ceil(len: int, unit: int): int
    requires 0 < unit
  {
    (len + unit - 1) / unit
  }

  /** The chunks that the admin structure takes for itself. */
  function Stolen(b: nat): int {
    if InPage(b) then Ceil(AdminLen(b), Pow2(b)) else 0
  }

  /** What the structure comes to for each size: its bytes, and the chunks that are left. */
  lemma Capacities()
    ensures AdminLen(4) == 56 && Stolen(4) == 4 && Slots(4) == 256
    ensures AdminLen(5) == 40 && Stolen(5) == 2 && Slots(5) == 128
    ensures AdminLen(6) == 32 && Stolen(6) == 1 && Slots(6) == 64
    ensures AdminLen(7) == 32 && !InPage(7) && Slots(7) == 32
    ensures AdminLen(8) == 32 && !InPage(8) && Slots(8) == 16
    ensures AdminLen(9) == 32 && !InPage(9) && Slots(9) == 8
    ensures AdminLen(10) == 32 && !InPage(10) && Slots(10) == 4
    ensures AdminLen(11) == 32 && !InPage(11) && Slots(11) == 2
    ensures !InPage(0) && Slots(0) == 256
  {
    assert Pow2(4) == 16 && Pow2(5) == 32 && Pow2(6) == 64 && Pow2(7) == 128;
    assert Pow2(8) == 256 && Pow2(9) == 512 && Pow2(10) == 1024 && Pow2(11) == 2048;
  }

  lemma Layout(b: nat)
    requires IsBucket(b)
    ensures Slots(b) <= BITS * AdminWords(b) && 0 <= Stolen(b) && Stolen(b) + 2 <= Slots(b) && Pow2(ShiftOf(b)) * Slots(b) == PAGE
    ensures Slots(b) < BITS || Slots(b) % BITS == 0
    ensures MINSIZE <= Pow2(ShiftOf(b))
  {
    assert Pow2(4) == 16 && Pow2(5) == 32 && Pow2(6) == 64 && Pow2(7) == 128;
    assert Pow2(8) == 256 && Pow2(9) == 512 && Pow2(10) == 1024 && Pow2(11) == 2048;
    assert b == 0 || b == 4 || b == 5 || b == 6 || b == 7 || b == 8 || b == 9 || b == 10 || b == 11;
  }

  // ----- one page -----

  function BucketOf(info: Pginfo): nat { if info.size == 0 then 0 else info.shift }

  ghost predicate InfoParts(info: Pginfo) {
    var b := BucketOf(info);
    && IsBucket(b) && info.shift == ShiftOf(b) && info.size == SizeOf(b)
    && Words(info.bits) && |info.bits| == AdminWords(b)
    && info.total == Slots(b) - Stolen(b) && info.free == Count(info.bits, Slots(b))
    && (forall k {:trigger BitAt(info.bits, k)} :: 0 <= k < Stolen(b) ==> !BitAt(info.bits, k))
  }

  ghost predicate InfoOK(info: Pginfo) {
    InfoParts(info) == true
  }

  /** The bitmap set-up of malloc_make_chunks, on memory that holds arbitrary words. */
  method InitBits(b: nat, junk: seq<Word>) returns (bits: seq<Word>, free: int, total: int)
    requires IsBucket(b) && Words(junk) && |junk| == AdminWords(b)
    ensures Words(bits) && |bits| == |junk|
    ensures SetFrom(bits, Stolen(b), Slots(b))
    ensures free == total == Slots(b) - Stolen(b) == Count(bits, Slots(b))
  {
    Layout(b);
    bits := FillBits(Slots(b), junk);
    CountAll(bits, Slots(b));
    free, total := Slots(b), Slots(b);
    if InPage(b) {
      bits, free, total := StealBits(b, Slots(b), bits);
    }
  }

  /** What is left of the admin structure after `i` chunks. */
  function LeftOver(b: nat, i: int): int { AdminLen(b) - i * Pow2(b) }

  lemma MulMono(a: int, b: int, unit: int)
    requires 0 < unit
    ensures a <= b ==> a * unit <= b * unit
  {
  }

  lemma CeilBounds(len: int, unit: int)
    requires 0 < unit
    ensures Ceil(len, unit) * unit <= len + unit - 1 < Ceil(len, unit) * unit + unit
  {
    var t := len + unit - 1;
    assert t == t / unit * unit + t % unit;
  }

  lemma CeilStep(len: int, unit: int, i: int)
    requires 0 < unit && 0 < len - i * unit
    ensures i < Ceil(len, unit) && (len - (i + 1) * unit <= 0 ==> i + 1 == Ceil(len, unit))
  {
    var q := Ceil(len, unit);
    CeilBounds(len, unit);
    MulMono(q, i, unit);
    MulMono(i + 2, q, unit);
    assert (i + 1) * unit == i * unit + unit && (i + 2) * unit == i * unit + 2 * unit;
  }

  lemma StolenStep(b: nat, i: nat, i': nat)
    requires InPage(b) && LeftOver(b, i) > 0 && i' == i + 1
    ensures i < Stolen(b) && LeftOver(b, i') == LeftOver(b, i) - Pow2(b) && (LeftOver(b, i') <= 0 ==> i' == Stolen(b))
  {
    assert i' * Pow2(b) == i * Pow2(b) + Pow2(b);
    CeilStep(AdminLen(b), Pow2(b), i);
  }

  /** Bits from `i` up are set, the ones below are not. */
  ghost predicate SetFrom(bits: seq<Word>, i: int, n: nat) {
    forall k {:trigger BitAt(bits, k)} :: 0 <= k < n ==> BitAt(bits, k) == (i <= k)
  }

  /** Marking the chunks that the admin structure takes: `for (i = 0; k > 0; i++)`. */
  method StealBits(b: nat, n: nat, full: seq<Word>) returns (bits: seq<Word>, free: int, total: int)
    requires IsBucket(b) && InPage(b) && Stolen(b) <= n <= BITS * |full| && Words(full) && Count(full, n) == n && SetFrom(full, 0, n)
    ensures Words(bits) && |bits| == |full| && SetFrom(bits, Stolen(b), n)
    ensures free == total == n - Stolen(b) == Count(bits, n)
  {
    bits, free, total := full, n, n;
    var i, k: int := 0, AdminLen(b);
    var size := Pow2(b);
    assert LeftOver(b, 0) == k;
    while k > 0
      invariant 0 <= i <= n && k == LeftOver(b, i) && (k <= 0 ==> i == Stolen(b))
      invariant Words(bits) && |bits| == |full| && SetFrom(bits, i, n)
      invariant free == total == n - i == Count(bits, n)
    {
      StolenStep(b, i, i + 1);
      bits := StealOne(bits, i, n);
      free, total := free - 1, total - 1;
      k := k - size;
      i := i + 1;
    }
  }

  method StealOne(bits: seq<Word>, i: nat, n: nat) returns (bits': seq<Word>)
    requires Words(bits) && i < n <= BITS * |bits| && SetFrom(bits, i, n)
    ensures Words(bits') && |bits'| == |bits| && SetFrom(bits', i + 1, n) && Count(bits', n) == Count(bits, n) - 1
  {
    bits' := PutBit(bits, i, false);
    assert BitAt(bits, i);
    CountPut(bits, bits', i, false, n);
  }

  /** Setting the first `n` bits, a word at a time while a whole word remains. */
  method FillBits(n: nat, junk: seq<Word>) returns (bits: seq<Word>)
    requires Words(junk) && n <= BITS * |junk|
    ensures Words(bits) && |bits| == |junk|
    ensures forall k {:trigger BitAt(bits, k)} :: 0 <= k < n ==> BitAt(bits, k)
  {
    bits := junk;
    var i := 0;
    while n - i >= BITS
      invariant 0 <= i <= n && i % BITS == 0 && Words(bits) && |bits| == |junk|
      invariant forall k {:trigger BitAt(bits, k)} :: 0 <= k < i ==> BitAt(bits, k)
    {
      ghost var was := bits;
      bits := bits[i / BITS := seq(BITS, _ => true)];
      forall k | 0 <= k < i + BITS ensures BitAt(bits, k) {
        if k < i {
          assert BitAt(was, k) && k / BITS != i / BITS;
        } else {
          assert k / BITS == i / BITS;
        }
      }
      i := i + BITS;
    }
    while i < n
      invariant 0 <= i <= n && Words(bits) && |bits| == |junk|
      invariant forall k {:trigger BitAt(bits, k)} :: 0 <= k < i ==> BitAt(bits, k)
    {
      bits := PutBit(bits, i, true);
      i := i + 1;
    }
  }

  // ----- the pages of chunks and their lists -----

  /** The pginfo records, their `next` fields, and the bucket heads in page_dir. */
  datatype Pool = Pool(infos: map<Addr, Pginfo>, next: map<Addr, Addr>, buckets: seq<Addr>)

  /** The lists as values, and the list each queued record is on. */
  datatype Queues = Queues(lists: seq<Chain>, home: map<Addr, int>)

  /** Each list holds, once, exactly the pages of its size that have a free chunk. */
  ghost predicate Queued(infos: map<Addr, Pginfo>, home: map<Addr, int>) {
    && (forall a {:trigger home[a]} {:trigger a in home} :: a in home ==> a in infos && infos[a].free > 0 && home[a] == BucketOf(infos[a]))
    && (forall a {:trigger infos[a]} {:trigger a in infos} :: a in infos && infos[a].free > 0 ==> a in home)
  }

  ghost predicate AllInfos(infos: map<Addr, Pginfo>) {
    forall a {:trigger infos[a]} {:trigger a in infos} :: a in infos ==> a != NULL && InfoOK(infos[a])
  }

  /** The lists as the buckets and links have them. */
  ghost predicate QueuesOK(p: Pool, q: Queues) {
    (|p.buckets| == BUCKETS && Threaded(p.buckets, p.next, q.lists, q.home) && Queued(p.infos, q.home)) == true
  }

  lemma AllInfosPut(infos: map<Addr, Pginfo>, at: Addr, info: Pginfo)
    requires AllInfos(infos)
    ensures at != NULL && InfoOK(info) ==> AllInfos(infos[at := info])
    ensures AllInfos(infos - {at})
  {
  }

  ghost predicate PoolOK(p: Pool, q: Queues) {
    (QueuesOK(p, q) && AllInfos(p.infos)) == true
  }

  /** A chunk that is handed out. */
  ghost predicate LiveChunk(info: Pginfo, k: int) {
    Stolen(BucketOf(info)) <= k < Slots(BucketOf(info)) && !BitAt(info.bits, k)
  }

  /** Some chunk of the page is handed out. */
  ghost predicate InUse(info: Pginfo) {
    (exists k {:trigger LiveChunk(info, k)} :: LiveChunk(info, k)) == true
  }

  ghost predicate AllInUse(infos: map<Addr, Pginfo>) {
    (forall a {:trigger infos[a]} {:trigger a in infos} :: a in infos ==> InUse(infos[a])) == true
  }

  lemma AllInUsePut(infos: map<Addr, Pginfo>, at: Addr, info: Pginfo)
    requires AllInUse(infos) && InUse(info)
    ensures AllInUse(infos[at := info])
  {
  }

  lemma AllInUseDrop(infos: map<Addr, Pginfo>, at: Addr)
    requires AllInUse(infos)
    ensures AllInUse(infos - {at})
  {
  }

  /** A page cut for bucket `b` has a free chunk. */
  ghost predicate InStock(infos: map<Addr, Pginfo>, b: nat) {
    exists a {:trigger infos[a]} :: a in infos && BucketOf(infos[a]) == b && infos[a].free > 0
  }

  /** The head of a list is null exactly when no page of that size has a free chunk. */
  lemma InStockIff(p: Pool, b: nat, q: Queues)
    requires QueuesOK(p, q) && b < BUCKETS
    ensures InStock(p.infos, b) <==> p.buckets[b] != NULL
  {
    if p.buckets[b] != NULL {
      HeadInfo(p, b, q);
    }
    if InStock(p.infos, b) {
      var a :| a in p.infos && BucketOf(p.infos[a]) == b && p.infos[a].free > 0;
      assert a in q.home;
      var i :| 0 <= i < |q.lists[b]| && q.lists[b][i] == a;
      SlotLoad(p.buckets, p.next, q.lists, q.home, b, 0);
    }
  }

  lemma NewInfo(info: Pginfo, b: nat)
    requires IsBucket(b) && info.size == SizeOf(b) && info.shift == ShiftOf(b) && Words(info.bits) && |info.bits| == AdminWords(b)
    requires SetFrom(info.bits, Stolen(b), Slots(b)) && info.free == info.total == Slots(b) - Stolen(b) == Count(info.bits, Slots(b))
    ensures BucketOf(info) == b && InfoOK(info) && info.free > 0 && forall k :: !LiveChunk(info, k)
  {
    Layout(b);
  }

  /** The end of malloc_make_chunks: a page of fresh chunks, pushed on its list. */
  method AddPage(p: Pool, b: nat, page: int, at: Addr, junk: seq<Word>, ghost q: Queues) returns (p': Pool, ghost q': Queues)
    requires PoolOK(p, q) && IsBucket(b) && at != NULL && at !in p.infos && Words(junk) && |junk| == AdminWords(b)
    ensures PoolOK(p', q') && p'.buckets[b] == at && at in p'.infos && p'.infos == p.infos[at := p'.infos[at]]
    ensures var info := p'.infos[at];
      BucketOf(info) == b && info.page == page && info.free == info.total && forall k :: !LiveChunk(info, k)
  {
    var bits, free, total := InitBits(b, junk);
    var info := Pginfo(page, SizeOf(b), ShiftOf(b), free, total, bits);
    NewInfo(info, b);
    AllInfosPut(p.infos, at, info);
    p', q' := PushInfo(p, b, at, info, q);
  }

  method PushInfo(p: Pool, b: nat, at: Addr, info: Pginfo, ghost q: Queues) returns (p': Pool, ghost q': Queues)
    requires QueuesOK(p, q) && at != NULL && at !in p.infos && BucketOf(info) == b < BUCKETS && info.free > 0
    ensures QueuesOK(p', q') && b < |p'.buckets| && p'.buckets[b] == at && p'.infos == p.infos[at := info]
  {
    p' := Pool(p.infos[at := info], p.next[at := p.buckets[b]], p.buckets[b := at]);
    q' := Queues(q.lists[b := Insert(q.lists[b], 0, at)], q.home[at := b]);
    assert at !in q.home;
    ThreadInsert(p.buckets, p.next, q.lists, q.home, b, 0, at);
  }

  /** Taking and returning a chunk. */
  function WithBit(info: Pginfo, k: int, bit: bool): Pginfo
    requires Words(info.bits) && 0 <= k < BITS * |info.bits|
  {
    info.(bits := PutBit(info.bits, k, bit), free := info.free + if bit then 1 else -1)
  }

  lemma BitInPage(info: Pginfo, k: int)
    requires InfoOK(info) && Stolen(BucketOf(info)) <= k < Slots(BucketOf(info))
    ensures IsBucket(BucketOf(info)) && Words(info.bits) && 0 <= k < BITS * |info.bits| && Slots(BucketOf(info)) <= BITS * |info.bits|
    ensures 0 <= Stolen(BucketOf(info)) && info.free == Count(info.bits, Slots(BucketOf(info)))
  {
    Layout(BucketOf(info));
  }

  lemma InfoWithBit(info: Pginfo, k: int, bit: bool)
    requires InfoOK(info) && Stolen(BucketOf(info)) <= k < Slots(BucketOf(info)) && BitAt(info.bits, k) != bit
    ensures Words(info.bits) && 0 <= k < BITS * |info.bits|
    ensures InfoOK(WithBit(info, k, bit)) && BucketOf(WithBit(info, k, bit)) == BucketOf(info)
    ensures forall j {:trigger LiveChunk(info, j)} {:trigger LiveChunk(WithBit(info, k, bit), j)} ::
      LiveChunk(WithBit(info, k, bit), j) <==> if j == k then !bit else LiveChunk(info, j)
  {
    BitInPage(info, k);
    BitsWith(info, k, bit, Stolen(BucketOf(info)), Slots(BucketOf(info)));
  }

  lemma BitsWith(info: Pginfo, k: int, bit: bool, s: int, n: nat)
    requires Words(info.bits) && 0 <= s <= k < n <= BITS * |info.bits| && BitAt(info.bits, k) != bit
    ensures var bits := WithBit(info, k, bit).bits;
      && Words(bits) && |bits| == |info.bits| && Count(bits, n) == Count(info.bits, n) + (if bit then 1 else -1)
      && BitAt(bits, k) == bit && forall j {:trigger BitAt(bits, j)} {:trigger BitAt(info.bits, j)} :: 0 <= j < n && j != k ==> BitAt(bits, j) == BitAt(info.bits, j)
  {
    CountPut(info.bits, PutBit(info.bits, k, bit), k, bit, n);
  }

  /** No more chunks are free than `total`, and fewer while one is live. */
  lemma {:induction false} CountFrom(bits: seq<Word>, s: nat, n: nat)
    requires s <= n && forall k {:trigger BitAt(bits, k)} :: 0 <= k < s ==> !BitAt(bits, k)
    ensures Count(bits, n) <= n - s
    ensures forall k {:trigger BitAt(bits, k)} :: s <= k < n && !BitAt(bits, k) ==> Count(bits, n) < n - s
    ensures Count(bits, n) < n - s ==> exists k {:trigger BitAt(bits, k)} :: s <= k < n && !BitAt(bits, k)
  {
    if n == s {
      CountZero(bits, n);
    } else {
      CountFrom(bits, s, n - 1);
    }
  }

  lemma FreeIsTotal(info: Pginfo)
    requires InfoOK(info)
    ensures 0 <= info.free <= info.total && 2 <= info.total
    ensures info.free == info.total <==> forall k :: !LiveChunk(info, k)
  {
    var b := BucketOf(info);
    Layout(b);
    CountFrom(info.bits, Stolen(b), Slots(b));
    if info.free < info.total {
      var k :| Stolen(b) <= k < Slots(b) && !BitAt(info.bits, k);
      assert LiveChunk(info, k);
    }
  }

  /** The record at the head of list `b`. */
  lemma HeadInfo(p: Pool, b: nat, q: Queues)
    requires QueuesOK(p, q) && b < BUCKETS && p.buckets[b] != NULL
    ensures var at := p.buckets[b]; at in p.infos && BucketOf(p.infos[at]) == b && p.infos[at].free > 0
    ensures |q.lists| == BUCKETS && |q.lists[b]| > 0 && q.lists[b][0] == p.buckets[b] && p.buckets[b] in q.home
  {
    SlotLoad(p.buckets, p.next, q.lists, q.home, b, 0);
    var at := q.lists[b][0];
    assert at in q.home;
  }

  /** malloc_bytes from the head of list `b`: the lowest free chunk of the first page. */
  method TakeChunk(p: Pool, b: nat, ghost q: Queues) returns (p': Pool, at: Addr, k: int, ghost q': Queues)
    requires PoolOK(p, q) && IsBucket(b) && p.buckets[b] != NULL
    ensures PoolOK(p', q') && at == p.buckets[b] && at in p.infos && BucketOf(p.infos[at]) == b && InfoOK(p.infos[at])
    ensures Stolen(b) <= k < Slots(b) && BitAt(p.infos[at].bits, k) && (forall j :: 0 <= j < k ==> !BitAt(p.infos[at].bits, j))
    ensures Words(p.infos[at].bits) && k < BITS * |p.infos[at].bits| && p'.infos == p.infos[at := WithBit(p.infos[at], k, false)]
  {
    at := p.buckets[b];
    HeadInfo(p, b, q);
    var info := p.infos[at];
    Layout(b);
    k := FindFree(info.bits, Slots(b));
    InfoWithBit(info, k, false);
    AllInfosPut(p.infos, at, WithBit(info, k, false));
    CountsUp(WithBit(info, k, false));
    p', q' := StoreTaken(p, b, WithBit(info, k, false), q);
  }

  /** The head record written back, and off its list when nothing is left on its page. */
  method StoreTaken(p: Pool, b: nat, info: Pginfo, ghost q: Queues) returns (p': Pool, ghost q': Queues)
    requires QueuesOK(p, q) && b < BUCKETS && p.buckets[b] != NULL && 0 <= info.free && BucketOf(info) == b
    ensures QueuesOK(p', q') && p'.infos == p.infos[p.buckets[b] := info]
  {
    var at := p.buckets[b];
    HeadInfo(p, b, q);
    p', q' := p.(infos := p.infos[at := info]), q;
    if info.free == 0 {
      ThreadDelete(p.buckets, p.next, q.lists, q.home, b, 0);
      p' := Pool(p'.infos, p.next[at := NULL], p.buckets[b := p.next[at]]);
      q' := Queues(q.lists[b := Delete(q.lists[b], 0)], q.home - {at});
      ThreadedOutside(p'.buckets, p.next, q'.lists, q'.home, at, NULL);
    }
  }

  lemma CountsUp(info: Pginfo)
    requires InfoOK(info)
    ensures 0 <= info.free
  {
  }

  /** The insertion loop of free_bytes stops at position `i`: every page it stepped to lies before `page`, the next one does not. */
  ghost predicate StopsAt(infos: map<Addr, Pginfo>, list: Chain, page: int, i: nat) {
    Passed(infos, list, page, i) && (i + 1 < |list| ==> page <= infos[list[i + 1]].page)
  }

  ghost predicate Passed(infos: map<Addr, Pginfo>, list: Chain, page: int, i: nat) {
    (&& Known(infos, list) && i <= |list| && (0 < i ==> i < |list|)
     && (forall j {:trigger list[j]} :: 0 < j <= i ==> infos[list[j]].page < page)) == true
  }

  ghost predicate Known(infos: map<Addr, Pginfo>, list: Chain) {
    forall j {:trigger list[j]} :: 0 <= j < |list| ==> list[j] in infos
  }

  /** The pages of a list are in address order. */
  ghost predicate InOrder(infos: map<Addr, Pginfo>, list: Chain)
    requires Known(infos, list)
  {
    forall i, j {:trigger list[i], list[j]} :: 0 <= i < j < |list| ==> infos[list[i]].page < infos[list[j]].page
  }

  /** A new record outside the list leaves the pages of the list as they are. */
  lemma OrderAt(infos: map<Addr, Pginfo>, list: Chain, at: Addr, info: Pginfo, i: nat)
    requires Known(infos, list) && i <= |list| && at !in list
    ensures Known(infos[at := info], Insert(list, i, at))
    ensures forall j {:trigger list[j]} :: 0 <= j < |list| ==> infos[at := info][list[j]] == infos[list[j]]
  {
    assert forall j :: 0 <= j < |list| ==> list[j] in list;
  }

  /** The loop keeps address order if and only if the list is empty or the page comes before all of it. */
  lemma OrderKeptIff(infos: map<Addr, Pginfo>, list: Chain, at: Addr, info: Pginfo, i: nat)
    requires StopsAt(infos, list, info.page, i) && InOrder(infos, list) && at !in list
    ensures Known(infos[at := info], Insert(list, i, at))
    ensures InOrder(infos[at := info], Insert(list, i, at)) <==> list == [] || info.page < infos[list[0]].page
  {
    OrderAt(infos, list, at, info, i);
    var list', infos' := Insert(list, i, at), infos[at := info];
    if list != [] {
      assert list'[i] == at && list'[i + 1] == list[i];
      var first, passed := infos[list[0]].page, infos[list[i]].page;
      assert i == 0 || first < passed;
      if info.page < infos[list[0]].page {
        assert i == 0;
        forall j, k | 0 <= j < k < |list'| ensures infos'[list'[j]].page < infos'[list'[k]].page {
          assert list'[k] == list[k - 1];
          if j > 0 { assert list'[j] == list[j - 1]; }
          assert infos[list[0]].page <= infos[list[k - 1]].page;
        }
      }
    }
  }

  /** Pages 1 and 2 are listed and page 3 becomes non-full: the loop puts it between them. */
  lemma OrderLost(infos: map<Addr, Pginfo>, a: Addr, b: Addr, at: Addr, info: Pginfo)
    requires a in infos && infos[a].page == 1 && b in infos && infos[b].page == 2 && a != at && b != at && info.page == 3
    ensures InOrder(infos, [a, b]) && StopsAt(infos, [a, b], 3, 1) && Insert([a, b], 1, at) == [a, at, b]
    ensures Known(infos[at := info], [a, at, b]) && !InOrder(infos[at := info], [a, at, b])
  {
    var list := [a, at, b];
    assert list[1] == at && list[2] == b;
  }

  /** The insertion loop of free_bytes. */
  method FindPlace(p: Pool, b: nat, page: int, ghost q: Queues) returns (mp: Slot, ghost i: nat)
    requires QueuesOK(p, q) && b < |q.lists|
    ensures StopsAt(p.infos, q.lists[b], page, i) && mp == SlotAt(q.lists, b, i)
  {
    mp, i := Bucket(b), 0;
    ghost var list := q.lists[b];
    ListKnown(p, b, q);
    SlotLoad(p.buckets, p.next, q.lists, q.home, b, 0);
    var e := p.buckets[b];
    while e != NULL
      invariant Passed(p.infos, list, page, i) && mp == SlotAt(q.lists, b, i) && e == Link(list, i)
      decreases |list| - i
    {
      NextRecord(p, b, i, q);
      var e' := p.next[e];
      if e' == NULL || p.infos[e'].page >= page { return; }
      PassedNext(p.infos, list, page, i);
      mp, e, i := NextOf(e), e', i + 1;
    }
  }

  /** `(*mp)->next` is the record after position `i`. */
  lemma NextRecord(p: Pool, b: nat, i: nat, q: Queues)
    requires QueuesOK(p, q) && b < |q.lists| && i < |q.lists[b]|
    ensures var e := q.lists[b][i]; e in p.next && p.next[e] == Link(q.lists[b], i + 1) && SlotAt(q.lists, b, i + 1) == NextOf(e)
    ensures i + 1 < |q.lists[b]| <==> Link(q.lists[b], i + 1) != NULL
  {
    SlotLoad(p.buckets, p.next, q.lists, q.home, b, i);
    SlotLoad(p.buckets, p.next, q.lists, q.home, b, i + 1);
  }

  lemma PassedNext(infos: map<Addr, Pginfo>, list: Chain, page: int, i: nat)
    requires Passed(infos, list, page, i) && i + 1 < |list| && infos[list[i + 1]].page < page
    ensures Passed(infos, list, page, i + 1)
  {
  }

  lemma ListKnown(p: Pool, b: nat, q: Queues)
    requires QueuesOK(p, q) && b < |q.lists|
    ensures Known(p.infos, q.lists[b])
  {
  }

  /** `while (*mp != info) mp = &((*mp)->next)` */
  method FindSelf(p: Pool, b: nat, at: Addr, ghost q: Queues) returns (mp: Slot, ghost i: nat)
    requires QueuesOK(p, q) && at in q.home && q.home[at] == b && b < |q.lists|
    ensures i < |q.lists[b]| && q.lists[b][i] == at && mp == SlotAt(q.lists, b, i)
  {
    mp, i := Bucket(b), 0;
    ghost var goal :| 0 <= goal < |q.lists[b]| && q.lists[b][goal] == at;
    SlotLoad(p.buckets, p.next, q.lists, q.home, b, i);
    while Load(p.buckets, p.next, mp) != at
      invariant i <= goal && mp == SlotAt(q.lists, b, i)
      invariant (if mp.Bucket? then mp.b < |p.buckets| else mp.e in p.next) && Load(p.buckets, p.next, mp) == Link(q.lists[b], i)
      decreases goal - i
    {
      SlotLoad(p.buckets, p.next, q.lists, q.home, b, i);
      SlotLoad(p.buckets, p.next, q.lists, q.home, b, i + 1);
      mp, i := NextOf(Load(p.buckets, p.next, mp)), i + 1;
    }
  }

  /** free_bytes, up to giving the page back: `emptied` when its last chunk came home. */
  method ReturnChunk(p: Pool, at: Addr, k: int, ghost q: Queues) returns (p': Pool, emptied: bool, ghost q': Queues)
    requires PoolOK(p, q) && at in p.infos && LiveChunk(p.infos[at], k)
    ensures PoolOK(p', q')
    ensures emptied <==> forall j :: j != k ==> !LiveChunk(p.infos[at], j)
    ensures Words(p.infos[at].bits) && 0 <= k < BITS * |p.infos[at].bits|
    ensures p'.infos == if emptied then p.infos - {at} else p.infos[at := WithBit(p.infos[at], k, true)]
  {
    var info := p.infos[at];
    assert InfoOK(info);
    InfoWithBit(info, k, true);
    var info' := WithBit(info, k, true);
    FreeIsTotal(info);
    FreeIsTotal(info');
    AllInfosPut(p.infos, at, info');
    var b := BucketOf(info);
    if info'.free == 1 {
      p', q' := Enqueue(p, at, info', b, q);
      emptied := false;
    } else if info'.free != info'.total {
      QueuesUpdate(p, at, info', q);
      p', q', emptied := p.(infos := p.infos[at := info']), q, false;
    } else {
      p', q' := Dequeue(p, at, b, q);
      emptied := true;
    }
  }

  lemma QueuesUpdate(p: Pool, at: Addr, info: Pginfo, q: Queues)
    requires QueuesOK(p, q) && at in p.infos && p.infos[at].free > 0 && info.free > 0 && BucketOf(info) == BucketOf(p.infos[at])
    ensures QueuesOK(p.(infos := p.infos[at := info]), q)
  {
  }

  lemma NotListed(p: Pool, at: Addr, b: nat, q: Queues)
    requires QueuesOK(p, q) && b < |q.lists| && at !in q.home
    ensures at !in q.lists[b]
  {
  }

  /** A page that became non-full joins its list. */
  method Enqueue(p: Pool, at: Addr, info: Pginfo, b: nat, ghost q: Queues) returns (p': Pool, ghost q': Queues)
    requires QueuesOK(p, q) && at != NULL && at in p.infos && p.infos[at].free == 0 && info.free > 0 && BucketOf(info) == b < BUCKETS
    ensures QueuesOK(p', q') && p'.infos == p.infos[at := info] && b < |q.lists| == |q'.lists|
    ensures Known(p.infos, q.lists[b]) && Known(p'.infos, q'.lists[b])
    ensures InOrder(p.infos, q.lists[b]) ==>
      (InOrder(p'.infos, q'.lists[b]) <==> q.lists[b] == [] || info.page < p.infos[q.lists[b][0]].page)
  {
    assert at !in q.home;
    var mp;
    ghost var i: nat := 0;
    mp, i := FindPlace(p, b, info.page, q);
    NotListed(p, at, b, q);
    OrderAt(p.infos, q.lists[b], at, info, i);
    if InOrder(p.infos, q.lists[b]) { OrderKeptIff(p.infos, q.lists[b], at, info, i); }
    p', q' := Enlist(p, at, info, b, mp, i, q);
  }

  /** `info->next = *mp; *mp = info` */
  method Enlist(p: Pool, at: Addr, info: Pginfo, b: nat, mp: Slot, ghost i: nat, ghost q: Queues) returns (p': Pool, ghost q': Queues)
    requires QueuesOK(p, q) && at != NULL && at in p.infos && at !in q.home && info.free > 0 && BucketOf(info) == b
    requires b < |q.lists| && i <= |q.lists[b]| && mp == SlotAt(q.lists, b, i)
    ensures QueuesOK(p', q') && p'.infos == p.infos[at := info] && q'.lists == q.lists[b := Insert(q.lists[b], i, at)]
  {
    SlotLoad(p.buckets, p.next, q.lists, q.home, b, i);
    ThreadInsert(p.buckets, p.next, q.lists, q.home, b, i, at);
    var v := Load(p.buckets, p.next, mp);
    p' := Pool(p.infos[at := info], PutNext(p.next[at := v], mp, at), PutTable(p.buckets, mp, at));
    q' := Queues(q.lists[b := Insert(q.lists[b], i, at)], q.home[at := b]);
  }

  /** A page without live chunks leaves its list and is forgotten. */
  method Dequeue(p: Pool, at: Addr, b: nat, ghost q: Queues) returns (p': Pool, ghost q': Queues)
    requires QueuesOK(p, q) && at in p.infos && p.infos[at].free > 0 && BucketOf(p.infos[at]) == b < BUCKETS
    ensures QueuesOK(p', q') && p'.infos == p.infos - {at}
  {
    assert at in q.home;
    var mp;
    ghost var i: nat := 0;
    mp, i := FindSelf(p, b, at, q);
    ThreadDelete(p.buckets, p.next, q.lists, q.home, b, i);
    SlotLoad(p.buckets, p.next, q.lists, q.home, b, i);
    p' := Pool(p.infos - {at}, PutNext(p.next, mp, p.next[at]), PutTable(p.buckets, mp, p.next[at]));
    q' := Queues(q.lists[b := Delete(q.lists[b], i)], q.home - {at});
  }

  // ----- sizes -----

  /** `ii` is `t` shifted right until units are `m`. */
  ghost predicate Shifted(t: int, ii: int, m: int) {
    (0 <= ii && 0 < m && ii * m <= t < (ii + 1) * m) == true
  }

  lemma HalfStep(t: int, ii: int, m: int)
    requires Shifted(t, ii, m)
    ensures Shifted(t, ii / 2, 2 * m) && (0 < ii ==> m <= t)
  {
    var h := ii / 2;
    assert h * (2 * m) == (2 * h) * m && (h + 1) * (2 * m) == (2 * h + 2) * m;
    assert (2 * h) * m <= ii * m && (ii + 1) * m <= (2 * h + 2) * m;
    assert 0 < ii ==> m <= ii * m;
  }

  /** The loop that finds the bucket of a request: `j = 1; ii = size - 1; while (ii >>= 1) j++`. */
  method Shifts(size: int) returns (j: nat)
    requires 0 < size
    ensures 1 <= j && size <= Pow2(j) && (j == 1 || Pow2(j - 1) < size)
  {
    j := 1;
    var ii := size - 1;
    HalfStep(size - 1, ii, 1);
    assert Pow2(1) == 2;
    ii := ii / 2;
    while ii != 0
      invariant 1 <= j && Shifted(size - 1, ii, Pow2(j)) && (j == 1 || Pow2(j - 1) < size)
      decreases ii
    {
      HalfStep(size - 1, ii, Pow2(j));
      ii := ii / 2;
      j := j + 1;
    }
  }

  lemma {:induction false} Pow2Rises(a: nat, b: nat)
    requires a < b
    ensures Pow2(a) < Pow2(b)
  {
    if a + 1 < b {
      Pow2Rises(a, b - 1);
    }
  }

  /** `b` is the bucket with the smallest chunks that hold `size` bytes; bucket 0 is for empty requests alone. */
  ghost predicate BestBucket(size: int, b: int) {
    IsBucket(b) && (b == 0 <==> size == 0) && size <= SizeOf(b) && forall c :: 4 <= c < b ==> SizeOf(c) < size
  }

  lemma BestBucketUnique(size: int, b: nat, c: nat)
    requires BestBucket(size, b) && BestBucket(size, c)
    ensures b == c
  {
  }

  /** The bucket that malloc_bytes picks. */
  method FindBucket(size: int) returns (b: nat)
    requires 0 <= size <= MAXSIZE
    ensures BestBucket(size, b)
  {
    if size == 0 { return 0; }
    b := Shifts(if size < MINSIZE then MINSIZE else size);
    assert Pow2(3) == 8 && Pow2(4) == 16 && Pow2(11) == 2048;
    if b < 4 {
      Pow2Rises(b, 4);
    } else if 11 < b {
      Pow2Rises(10, b - 1);
      if 11 < b - 1 { Pow2Rises(11, b - 1); }
    }
    forall c | 4 <= c < b ensures SizeOf(c) < size {
      if c < b - 1 { Pow2Rises(c, b - 1); }
    }
  }

  function PageRound(size: int): int { (size + PAGE - 1) / PAGE * PAGE }

  /** malloc_good_size: what it returns is never too small, and asking for it instead costs no larger a chunk and no more pages. */
  method GoodSize(size: int) returns (g: int)
    requires 0 <= size
    ensures size < g || (size == g && 0 < size)
    ensures size == 0 ==> g == 1
    ensures 0 < size <= MAXSIZE ==> exists j: nat {:trigger Pow2(j)} :: 1 <= j && g == Pow2(j) && forall i: nat {:trigger Pow2(i)} :: 1 <= i < j ==> Pow2(i) < size
    ensures 0 < size <= MAXSIZE ==> g <= MAXSIZE && forall b :: BestBucket(size, b) ==> BestBucket(g, b)
    ensures MAXSIZE < size ==> g % PAGE == 0 && size <= g < size + PAGE && PageRound(g) == g == PageRound(size)
  {
    if size == 0 {
      g := 1;
    } else if size <= MAXSIZE {
      var j := Shifts(size);
      g := Pow2(j);
      if 11 < j {
        Pow2Rises(10, j - 1);
        if 11 < j - 1 { Pow2Rises(11, j - 1); }
      } else if j < 11 {
        Pow2Rises(j, 11);
      }
      assert Pow2(3) == 8 && Pow2(4) == 16 && Pow2(11) == 2048;
      forall b | BestBucket(size, b) ensures BestBucket(g, b) {
        SameBucket(size, j, b);
      }
      LeastPower(size, j);
    } else {
      g := PageRound(size);
    }
  }

  lemma LeastPower(size: int, j: nat)
    requires 1 <= j && (j == 1 || Pow2(j - 1) < size)
    ensures forall i: nat {:trigger Pow2(i)} :: 1 <= i < j ==> Pow2(i) < size
  {
    forall i: nat | 1 <= i < j ensures Pow2(i) < size {
      if i < j - 1 { Pow2Rises(i, j - 1); }
    }
  }

  lemma SameBucket(size: int, j: nat, b: nat)
    requires 0 < size && BestBucket(size, b) && 1 <= j && size <= Pow2(j) && (j == 1 || Pow2(j - 1) < size)
    ensures BestBucket(Pow2(j), b)
  {
    if b < j {
      if b < j - 1 { Pow2Rises(b, j - 1); }
    } else if j < b {
      Pow2Rises(j, b);
      assert SizeOf(j) == Pow2(j);
      assert j < 4;
      forall c | 4 <= c < b ensures SizeOf(c) < Pow2(j) {
        Pow2Rises(j, c);
        assert SizeOf(c) < size;
      }
    }
  }
}
