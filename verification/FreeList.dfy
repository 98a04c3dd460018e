/**
  The list of free page runs of ext/OpenBSD_malloc_Linux.c.

  Holders (`struct pgfree`) sit in explicit memory and are doubly linked behind
  the static `free_list`.  Sizes and addresses are in pages.
 */
module FreeList {

  import opened Chains

  datatype PgFree = PgFree(next: Addr, prev: Addr, page: int, pdir: Addr, size: int)

  type Holders = map<Addr, PgFree>

  /** The address of the static list head. */
  const FREE_LIST: Addr := -1

  /** What a holder says about its run. */
  datatype Run = Run(page: int, size: int, pdir: Addr)

  function End(r: Run): int { r.page + r.size }

  function PrevOf(order: seq<Addr>, i: int): Addr {
    if 0 < i <= |order| then order[i - 1] else FREE_LIST
  }

  ghost predicate DistinctHolders(order: seq<Addr>) {
    forall i, j {:trigger order[i], order[j]} :: 0 <= i < j < |order| ==> order[i] != order[j]
  }

  ghost predicate OnList(h: Holders, order: seq<Addr>) {
    && FREE_LIST in h && h[FREE_LIST].next == Link(order, 0)
    && DistinctHolders(order)
    && (forall i {:trigger h[order[i]]} {:trigger order[i] in h} :: 0 <= i < |order| ==>
          && order[i] != NULL && order[i] != FREE_LIST && order[i] in h
          && h[order[i]].next == Link(order, i + 1) && h[order[i]].prev == PrevOf(order, i))
  }

  ghost predicate Holds(h: Holders, order: seq<Addr>, runs: seq<Run>) {
    && |order| == |runs|
    && (forall i {:trigger runs[i]} :: 0 <= i < |runs| ==>
          order[i] in h && runs[i] == Run(h[order[i]].page, h[order[i]].size, h[order[i]].pdir))
  }

  /** Address-sorted, non-empty, and fully coalesced: no two runs touch. */
  ghost predicate Tidy(runs: seq<Run>) {
    && (forall i {:trigger runs[i]} :: 0 <= i < |runs| ==> 1 <= runs[i].size)
    && (forall i, j {:trigger runs[i], runs[j]} :: 0 <= i < j < |runs| ==> End(runs[i]) < runs[j].page)
  }

  ghost predicate Listed(h: Holders, order: seq<Addr>, runs: seq<Run>) {
    (OnList(h, order) && Holds(h, order, runs) && Tidy(runs)) == true
  }

  function Total(runs: seq<Run>): int {
    if runs == [] then 0 else runs[0].size + Total(runs[1..])
  }

  // ----- totals -----

  lemma {:induction false} TotalNonNeg(runs: seq<Run>)
    requires forall i {:trigger runs[i]} :: 0 <= i < |runs| ==> 1 <= runs[i].size
    ensures 0 <= Total(runs)
  {
    if runs != [] {
      assert forall i :: 0 <= i < |runs[1..]| ==> runs[1..][i] == runs[i + 1];
      TotalNonNeg(runs[1..]);
    }
  }

  lemma {:induction false} TotalSplit(runs: seq<Run>, i: nat)
    requires i <= |runs|
    ensures Total(runs) == Total(runs[..i]) + Total(runs[i..])
  {
    if i > 0 {
      TotalSplit(runs[1..], i - 1);
      assert runs[1..][..i - 1] == runs[..i][1..];
      assert runs[1..][i - 1..] == runs[i..];
    } else {
      assert runs[0..] == runs;
    }
  }

  lemma {:induction false} TotalCat(a: seq<Run>, b: seq<Run>)
    ensures Total(a + b) == Total(a) + Total(b)
  {
    TotalSplit(a + b, |a|);
    assert (a + b)[..|a|] == a && (a + b)[|a|..] == b;
  }

  lemma TotalInsert(runs: seq<Run>, i: nat, r: Run)
    requires i <= |runs|
    ensures Total(Insert(runs, i, r)) == Total(runs) + r.size
  {
    assert Insert(runs, i, r) == runs[..i] + ([r] + runs[i..]);
    TotalCat(runs[..i], [r] + runs[i..]);
    assert ([r] + runs[i..])[1..] == runs[i..];
    TotalSplit(runs, i);
  }

  lemma TotalDelete(runs: seq<Run>, i: nat)
    requires i < |runs|
    ensures Total(Delete(runs, i)) == Total(runs) - runs[i].size
  {
    assert Insert(Delete(runs, i), i, runs[i]) == runs;
    TotalInsert(Delete(runs, i), i, runs[i]);
  }

  lemma TotalUpdate(runs: seq<Run>, i: nat, r: Run)
    requires i < |runs|
    ensures Total(runs[i := r]) == Total(runs) - runs[i].size + r.size
  {
    TotalDelete(runs, i);
    assert Insert(Delete(runs, i), i, r) == runs[i := r];
    TotalInsert(Delete(runs, i), i, r);
  }

  // ----- shapes -----

  lemma TidyInsert(runs: seq<Run>, i: nat, r: Run)
    requires Tidy(runs) && i <= |runs| && 1 <= r.size
    requires i > 0 ==> End(runs[i - 1]) < r.page
    requires i < |runs| ==> End(r) < runs[i].page
    ensures Tidy(Insert(runs, i, r))
  {
    var runs' := Insert(runs, i, r);
    forall j, k | 0 <= j < k < |runs'| ensures End(runs'[j]) < runs'[k].page {
      var x, y := runs'[j], runs'[k];
      if j < i {
        assert x == runs[j];
        if k < i {
          assert y == runs[k];
        } else if k == i {
          var z := runs[i - 1];
          assert j < i - 1 ==> End(x) < z.page && 1 <= z.size;
        } else {
          assert y == runs[k - 1];
        }
      } else {
        assert y == runs[k - 1];
        if j > i {
          assert x == runs[j - 1];
        } else {
          var z := runs[i];
          assert i < k - 1 ==> End(z) < y.page && 1 <= z.size;
        }
      }
    }
  }

  lemma TidyDelete(runs: seq<Run>, i: nat)
    requires Tidy(runs) && i < |runs|
    ensures Tidy(Delete(runs, i))
  {
    var runs' := Delete(runs, i);
    assert forall j :: 0 <= j < |runs'| ==> runs'[j] == runs[if j < i then j else j + 1];
  }

  /** A run may be replaced by one that stays clear of its neighbours. */
  lemma TidyUpdate(runs: seq<Run>, i: nat, r: Run)
    requires Tidy(runs) && i < |runs| && 1 <= r.size
    requires i > 0 ==> End(runs[i - 1]) < r.page
    requires i + 1 < |runs| ==> End(r) < runs[i + 1].page
    ensures Tidy(runs[i := r])
  {
    TidyDelete(runs, i);
    var rest := Delete(runs, i);
    assert i > 0 ==> rest[i - 1] == runs[i - 1];
    assert i < |rest| ==> rest[i] == runs[i + 1];
    TidyInsert(rest, i, r);
    assert Insert(rest, i, r) == runs[i := r];
  }

  // ----- link surgery -----

  /** `px` linked in between `pv` and `nx`; `nx` may be NULL. */
  function LinkHolder(h: Holders, px: Addr, pv: Addr, nx: Addr): Holders
    requires px in h && pv in h && (nx != NULL ==> nx in h)
  {
    var h1 := h[px := h[px].(next := nx, prev := pv)];
    var h2 := if nx != NULL then h1[nx := h1[nx].(prev := px)] else h1;
    h2[pv := h2[pv].(next := px)]
  }

  /** `pf` taken off the list; the holder itself stays allocated. */
  function UnlinkHolder(h: Holders, pf: Addr): Holders
    requires pf in h && h[pf].prev in h && (h[pf].next != NULL ==> h[pf].next in h)
  {
    var e := h[pf];
    var h1 := if e.next != NULL then h[e.next := h[e.next].(prev := e.prev)] else h;
    h1[e.prev := h1[e.prev].(next := e.next)]
  }

  lemma OnListInsert(h: Holders, order: seq<Addr>, i: nat, px: Addr)
    requires OnList(h, order) && i <= |order| && px in h && px !in order && px != NULL && px != FREE_LIST
    ensures PrevOf(order, i) in h && (Link(order, i) != NULL ==> Link(order, i) in h)
    ensures OnList(LinkHolder(h, px, PrevOf(order, i), Link(order, i)), Insert(order, i, px))
  {
    var pv, nx, order' := PrevOf(order, i), Link(order, i), Insert(order, i, px);
    assert i > 0 ==> order[i - 1] in h;
    assert i < |order| ==> order[i] in h;
    var h' := LinkHolder(h, px, pv, nx);
    forall j, k | 0 <= j < k < |order'| ensures order'[j] != order'[k] {
      assert j != i ==> order'[j] == order[if j < i then j else j - 1];
      assert k != i ==> order'[k] == order[if k < i then k else k - 1];
    }
    forall j | 0 <= j < |order'|
      ensures order'[j] != NULL && order'[j] != FREE_LIST && order'[j] in h' && h'[order'[j]].next == Link(order', j + 1) && h'[order'[j]].prev == PrevOf(order', j)
    {
      if j < i {
        var a := order[j];
        assert order'[j] == a && a in h && a != px;
        assert j < i - 1 ==> a != order[i - 1] && order'[j + 1] == order[j + 1];
        assert i < |order| ==> a != order[i];
        assert PrevOf(order', j) == PrevOf(order, j);
      } else if j > i {
        var a := order[j - 1];
        assert order'[j] == a && a in h && a != px;
        assert i > 0 ==> a != order[i - 1];
        assert Link(order', j + 1) == Link(order, j);
        assert j > i + 1 ==> a != order[i] && PrevOf(order', j) == order[j - 2];
      }
    }
  }

  lemma OnListDelete(h: Holders, order: seq<Addr>, i: nat)
    requires OnList(h, order) && i < |order|
    ensures var pf := order[i]; pf in h && h[pf].prev in h && (h[pf].next != NULL ==> h[pf].next in h)
    ensures OnList(UnlinkHolder(h, order[i]), Delete(order, i))
  {
    var pf, order' := order[i], Delete(order, i);
    assert pf in h;
    assert i > 0 ==> order[i - 1] in h;
    assert i + 1 < |order| ==> order[i + 1] in h;
    var h' := UnlinkHolder(h, pf);
    assert forall j :: 0 <= j < |order'| ==> order'[j] == order[if j < i then j else j + 1];
    forall j | 0 <= j < |order'|
      ensures order'[j] != NULL && order'[j] != FREE_LIST && order'[j] in h' && h'[order'[j]].next == Link(order', j + 1) && h'[order'[j]].prev == PrevOf(order', j)
    {
      if j < i {
        var a := order[j];
        assert order'[j] == a && a in h;
        assert j < i - 1 ==> a != order[i - 1];
        assert i + 1 < |order| ==> a != order[i + 1];
        assert PrevOf(order', j) == PrevOf(order, j);
      } else {
        var a := order[j + 1];
        assert order'[j] == a && a in h;
        assert i > 0 ==> a != order[i - 1];
        assert j > i ==> a != order[i + 1] && PrevOf(order', j) == order[j];
      }
    }
  }

  /** The runs themselves are untouched by relinking their holders. */
  ghost predicate SameRuns(h: Holders, h': Holders) {
    forall a {:trigger h'[a]} {:trigger a in h'} :: a in h ==> a in h' && h'[a].page == h[a].page && h'[a].size == h[a].size && h'[a].pdir == h[a].pdir
  }

  lemma HoldsInsert(h: Holders, h': Holders, order: seq<Addr>, runs: seq<Run>, i: nat, px: Addr, r: Run)
    requires Holds(h, order, runs) && i <= |order| && SameRuns(h, h') && px in h && r == Run(h[px].page, h[px].size, h[px].pdir)
    ensures Holds(h', Insert(order, i, px), Insert(runs, i, r))
  {
    var order', runs' := Insert(order, i, px), Insert(runs, i, r);
    forall j | 0 <= j < |runs'| ensures order'[j] in h' && runs'[j] == Run(h'[order'[j]].page, h'[order'[j]].size, h'[order'[j]].pdir) {
      if j != i {
        var j0 := if j < i then j else j - 1;
        var a, r0 := order[j0], runs[j0];
        assert order'[j] == a && runs'[j] == r0 && a in h;
      }
    }
  }

  lemma ListedInsert(h: Holders, order: seq<Addr>, runs: seq<Run>, i: nat, px: Addr, r: Run)
    requires Listed(h, order, runs) && i <= |order| && px in h && px !in order && px != NULL && px != FREE_LIST
    requires r == Run(h[px].page, h[px].size, h[px].pdir) && Tidy(Insert(runs, i, r))
    ensures PrevOf(order, i) in h && (Link(order, i) != NULL ==> Link(order, i) in h)
    ensures Listed(LinkHolder(h, px, PrevOf(order, i), Link(order, i)), Insert(order, i, px), Insert(runs, i, r))
  {
    OnListInsert(h, order, i, px);
    var h' := LinkHolder(h, px, PrevOf(order, i), Link(order, i));
    HoldsInsert(h, h', order, runs, i, px, r);
  }

  lemma ListedDelete(h: Holders, order: seq<Addr>, runs: seq<Run>, i: nat)
    requires Listed(h, order, runs) && i < |order|
    ensures var pf := order[i]; pf in h && h[pf].prev in h && (h[pf].next != NULL ==> h[pf].next in h)
    ensures Listed(UnlinkHolder(h, order[i]), Delete(order, i), Delete(runs, i))
    ensures UnlinkHolder(h, order[i]).Keys == h.Keys
  {
    OnListDelete(h, order, i);
    TidyDelete(runs, i);
    var h', order', runs' := UnlinkHolder(h, order[i]), Delete(order, i), Delete(runs, i);
    assert SameRuns(h, h');
    forall j | 0 <= j < |runs'| ensures order'[j] in h' && runs'[j] == Run(h'[order'[j]].page, h'[order'[j]].size, h'[order'[j]].pdir) {
      var j0 := if j < i then j else j + 1;
      var a, r0 := order[j0], runs[j0];
      assert order'[j] == a && runs'[j] == r0 && a in h;
    }
  }

  /** Rewriting what one holder says about its run. */
  function PutRun(h: Holders, pf: Addr, r: Run): Holders
    requires pf in h
  {
    h[pf := h[pf].(page := r.page, size := r.size, pdir := r.pdir)]
  }

  lemma ListedUpdate(h: Holders, order: seq<Addr>, runs: seq<Run>, i: nat, r: Run)
    requires Listed(h, order, runs) && i < |order| && Tidy(runs[i := r])
    ensures order[i] in h && Listed(PutRun(h, order[i], r), order, runs[i := r])
  {
    var pf := order[i];
    assert pf in h;
    var h', runs' := PutRun(h, pf, r), runs[i := r];
    forall j | 0 <= j < |order|
      ensures order[j] in h' && h'[order[j]].next == Link(order, j + 1) && h'[order[j]].prev == PrevOf(order, j)
      ensures runs'[j] == Run(h'[order[j]].page, h'[order[j]].size, h'[order[j]].pdir)
      ensures order[j] != NULL && order[j] != FREE_LIST
    {
      var a, r0 := order[j], runs[j];
      assert a in h;
      assert j != i ==> a != pf;
    }
  }

  /** A holder off the list may be allocated, rewritten or freed. */
  lemma ListedOutside(h: Holders, h': Holders, order: seq<Addr>, runs: seq<Run>, x: Addr)
    requires Listed(h, order, runs) && x !in order && x != FREE_LIST
    requires forall a {:trigger h'[a]} {:trigger a in h'} :: a in h && a != x ==> a in h' && h'[a] == h[a]
    ensures Listed(h', order, runs)
  {
    forall j | 0 <= j < |order|
      ensures order[j] in h && order[j] in h' && h'[order[j]] == h[order[j]]
    {
      var a, r0 := order[j], runs[j];
      assert a in h && a != x;
    }
    assert h'[FREE_LIST] == h[FREE_LIST];
  }

  /** Reading the holder at position `i`. */
  lemma Read(h: Holders, order: seq<Addr>, runs: seq<Run>, i: nat)
    requires Listed(h, order, runs) && i <= |order|
    ensures |order| == |runs| && (Link(order, i) == NULL <==> i == |order|)
    ensures i < |order| ==> order[i] in h && runs[i] == Run(h[order[i]].page, h[order[i]].size, h[order[i]].pdir) && 1 <= runs[i].size
    ensures i < |order| ==> h[order[i]].next == Link(order, i + 1) && h[order[i]].prev == PrevOf(order, i) && order[i] != FREE_LIST
    ensures FREE_LIST in h && h[FREE_LIST].next == Link(order, 0)
  {
    if i < |order| {
      var a, r := order[i], runs[i];
      assert a in h;
    }
  }

  // ----- taking pages -----

  /** The first-fit search of malloc_pages. */
  method FirstFit(h: Holders, want: int, ghost order: seq<Addr>, ghost runs: seq<Run>) returns (pf: Addr, ghost i: nat)
    requires Listed(h, order, runs)
    ensures forall k :: 0 <= k < i && k < |runs| ==> runs[k].size < want
    ensures pf == NULL ==> i == |runs|
    ensures pf != NULL ==> i < |order| && pf == order[i] && pf in h && want <= runs[i].size
  {
    pf, i := h[FREE_LIST].next, 0;
    Read(h, order, runs, 0);
    while pf != NULL
      invariant i <= |order| && pf == Link(order, i) && (pf == NULL <==> i == |order|)
      invariant forall k :: 0 <= k < i ==> runs[k].size < want
      decreases |order| - i
    {
      Read(h, order, runs, i);
      if h[pf].size >= want { return; }
      Read(h, order, runs, i + 1);
      pf, i := h[pf].next, i + 1;
    }
  }

  // ----- giving pages back -----

  ghost predicate InRuns(runs: seq<Run>, p: int) {
    exists k {:trigger runs[k]} :: 0 <= k < |runs| && runs[k].page <= p < End(runs[k])
  }

  /** Some run starts at page `a`, in directory `d`. */
  ghost predicate Starts(runs: seq<Run>, a: int, d: Addr) {
    exists k {:trigger runs[k]} :: 0 <= k < |runs| && runs[k].page == a && runs[k].pdir == d
  }

  /** `runs'` is `runs` with the pages of `r` added; `i` is the entry that now holds them. */
  ghost predicate Added(runs: seq<Run>, r: Run, runs': seq<Run>, i: int) {
    && 0 <= i < |runs'|
    && (forall p {:trigger InRuns(runs', p)} :: InRuns(runs', p) <==> InRuns(runs, p) || r.page <= p < End(r))
    && (forall a, d {:trigger Starts(runs', a, d)} :: Starts(runs', a, d) ==> Starts(runs, a, d) || (a == r.page && d == r.pdir))
    && runs'[i].page <= r.page && End(r) <= End(runs'[i])
  }

  lemma AddedInsert(runs: seq<Run>, i: nat, r: Run)
    requires i <= |runs|
    ensures Added(runs, r, Insert(runs, i, r), i)
  {
    var runs' := Insert(runs, i, r);
    assert forall k :: 0 <= k < |runs'| && k != i ==> runs'[k] == runs[if k < i then k else k - 1];
    assert forall k :: 0 <= k < |runs| ==> runs[k] == runs'[if k < i then k else k + 1];
    assert runs'[i] == r;
  }

  /** `g` is runs[i] grown by `r` at one end. */
  lemma AddedGrow(runs: seq<Run>, i: nat, r: Run, g: Run)
    requires i < |runs| && 0 < r.size && 0 < runs[i].size && g.size == runs[i].size + r.size
    requires (End(runs[i]) == r.page && g.page == runs[i].page && g.pdir == runs[i].pdir) || (End(r) == runs[i].page && g.page == r.page && g.pdir == r.pdir)
    ensures Added(runs, r, runs[i := g], i)
  {
    var runs' := runs[i := g];
    assert runs'[i] == g;
    forall p ensures InRuns(runs', p) <==> InRuns(runs, p) || r.page <= p < End(r) {
      if InRuns(runs, p) {
        var k :| 0 <= k < |runs| && runs[k].page <= p < End(runs[k]);
        assert runs'[k] == if k == i then g else runs[k];
      }
      if InRuns(runs', p) {
        var k :| 0 <= k < |runs'| && runs'[k].page <= p < End(runs'[k]);
        assert k != i ==> runs'[k] == runs[k];
        assert k == i && !(r.page <= p < End(r)) ==> runs[i].page <= p < End(runs[i]);
      }
    }
    forall a, d | Starts(runs', a, d) ensures Starts(runs, a, d) || (a == r.page && d == r.pdir) {
      var k :| 0 <= k < |runs'| && runs'[k].page == a && runs'[k].pdir == d;
      assert k != i ==> runs'[k] == runs[k];
      assert k == i ==> g.page == runs[i].page || g.page == r.page;
    }
  }

  /** Entry i + 1 swallowed by entry `i`, which it touches. */
  lemma AddedJoin(runs: seq<Run>, i: nat, r: Run, mid: seq<Run>, g: Run)
    requires Added(runs, r, mid, i) && i + 1 < |mid| && End(mid[i]) == mid[i + 1].page && 0 < mid[i].size && 0 < mid[i + 1].size
    requires g == mid[i].(size := mid[i].size + mid[i + 1].size)
    ensures Added(runs, r, Delete(mid[i := g], i + 1), i)
  {
    var runs' := Delete(mid[i := g], i + 1);
    assert runs'[i] == g;
    assert forall k :: 0 <= k < |runs'| && k != i ==> runs'[k] == mid[if k < i then k else k + 1];
    forall p ensures InRuns(runs', p) <==> InRuns(mid, p) {
      if InRuns(mid, p) {
        var k :| 0 <= k < |mid| && mid[k].page <= p < End(mid[k]);
        var k' := if k <= i then k else k - 1;
        assert k == i || k == i + 1 ==> g.page <= p < End(g);
        assert runs'[k'].page <= p < End(runs'[k']);
      }
      if InRuns(runs', p) {
        var k :| 0 <= k < |runs'| && runs'[k].page <= p < End(runs'[k]);
        if k == i {
          assert mid[i].page <= p < End(mid[i]) || mid[i + 1].page <= p < End(mid[i + 1]);
        } else {
          assert mid[if k < i then k else k + 1] == runs'[k];
        }
      }
    }
    forall a, d | Starts(runs', a, d) ensures Starts(mid, a, d) {
      var k :| 0 <= k < |runs'| && runs'[k].page == a && runs'[k].pdir == d;
      assert mid[if k <= i then k else k + 1].page == a && mid[if k <= i then k else k + 1].pdir == d;
    }
  }

  /** The new run overlaps nothing on the list. */
  ghost predicate Clear(runs: seq<Run>, r: Run) {
    forall k {:trigger runs[k]} :: 0 <= k < |runs| ==> End(r) <= runs[k].page || End(runs[k]) <= r.page
  }

  /** The racing loop of free_pages: stop at the first entry that does not end before `page`, or at the last one. */
  method FindSpot(h: Holders, page: int, ghost order: seq<Addr>, ghost runs: seq<Run>) returns (pf: Addr, sum: int, ghost i: nat)
    requires Listed(h, order, runs) && order != []
    ensures i < |order| && pf == order[i] && sum == Total(runs[..i])
    ensures forall k :: 0 <= k < i ==> End(runs[k]) < page
    ensures page <= End(runs[i]) || i + 1 == |order|
  {
    Read(h, order, runs, 0);
    Read(h, order, runs, 1);
    pf, sum, i := h[FREE_LIST].next, 0, 0;
    while page > h[pf].page + h[pf].size && h[pf].next != NULL
      invariant i < |order| && pf == order[i] && pf in h && runs[i] == Run(h[pf].page, h[pf].size, h[pf].pdir)
      invariant h[pf].next == Link(order, i + 1) && (h[pf].next == NULL <==> i + 1 == |order|)
      invariant sum == Total(runs[..i])
      invariant forall k :: 0 <= k < i ==> End(runs[k]) < page
      decreases |order| - i
    {
      TotalSplit(runs[..i + 1], i);
      assert runs[..i + 1][..i] == runs[..i] && runs[..i + 1][i..] == [runs[i]];
      assert Total([runs[i]]) == runs[i].size;
      sum := sum + h[pf].size;
      Read(h, order, runs, i + 1);
      Read(h, order, runs, i + 2);
      pf, i := h[pf].next, i + 1;
    }
  }

  /** The loop that finishes the cache size calculation. */
  method SumFrom(h: Holders, start: Addr, ghost order: seq<Addr>, ghost runs: seq<Run>, ghost i0: nat) returns (sum: int)
    requires Listed(h, order, runs) && i0 <= |order| && start == Link(order, i0)
    ensures sum == Total(runs[i0..])
  {
    var pt := start;
    ghost var i := i0;
    sum := 0;
    Read(h, order, runs, i);
    while pt != NULL
      invariant i0 <= i <= |order| && pt == Link(order, i) && (pt == NULL <==> i == |order|)
      invariant sum + Total(runs[i..]) == Total(runs[i0..])
      decreases |order| - i
    {
      Read(h, order, runs, i);
      Read(h, order, runs, i + 1);
      assert runs[i..][1..] == runs[i + 1..];
      sum := sum + h[pt].size;
      pt, i := h[pt].next, i + 1;
    }
  }

  /** Entries touch [p, e) on both sides, and the one after it has `m` pages. */
  ghost predicate Bridges(runs: seq<Run>, p: int, e: int, m: int) {
    exists j, k {:trigger runs[j], runs[k]} :: 0 <= j < k < |runs| && End(runs[j]) == p && runs[k].page == e && runs[k].size == m
  }

  /** By how much free_pages over-counts when it frees [p, e): the size of the entry it collapses, if there is one. */
  ghost predicate Doubled(runs: seq<Run>, p: int, e: int, m: int) {
    if m == 0 then forall j, k {:trigger runs[j], runs[k]} :: 0 <= j < k < |runs| ==> !(End(runs[j]) == p && runs[k].page == e)
    else Bridges(runs, p, e, m)
  }

  /** How free_pages left the list: which entry holds the pages, what it counted as cached besides that entry, and what was freed. */
  ghost predicate Filed(runs: seq<Run>, r: Run, runs': seq<Run>, i: int, cached: int, inserted: bool) {
    ( && Added(runs, r, runs', i)
      && Total(runs') - runs'[i].size <= cached <= Total(runs) && Total(runs') == Total(runs) + r.size
      && Doubled(runs, r.page, End(r), cached + runs'[i].size - Total(runs) - r.size)
      && (if inserted then runs'[i] == r && cached == Total(runs) else cached < Total(runs))
      && (inserted <==> !Touched(runs, r.page, End(r))) && Joins(runs, r.page, runs'[i].page)) == true
  }

  /** Some entry ends where [a, b) starts or starts where it ends. */
  ghost predicate Touched(runs: seq<Run>, a: int, b: int) {
    exists k {:trigger runs[k]} :: 0 <= k < |runs| && (End(runs[k]) == a || runs[k].page == b)
  }

  ghost predicate EndsAt(runs: seq<Run>, a: int) {
    exists k {:trigger runs[k]} :: 0 <= k < |runs| && End(runs[k]) == a
  }

  /** A run that starts at `a` becomes part of the entry whose first page is `f`. */
  ghost predicate Joins(runs: seq<Run>, a: int, f: int) {
    if EndsAt(runs, a) then exists k {:trigger runs[k]} :: 0 <= k < |runs| && End(runs[k]) == a && runs[k].page == f else f == a
  }

  ghost predicate Spare(h: Holders, order: seq<Addr>, px: Addr) {
    px in h && px !in order && px != NULL && px != FREE_LIST
  }

  lemma NoneTouches(runs: seq<Run>, i: nat, r: Run)
    requires Tidy(runs) && i <= |runs| && 1 <= r.size && (i > 0 ==> End(runs[i - 1]) < r.page) && (i < |runs| ==> End(r) < runs[i].page)
    ensures Doubled(runs, r.page, End(r), 0) && !Touched(runs, r.page, End(r)) && Joins(runs, r.page, r.page)
  {
    forall j | 0 <= j < |runs| ensures End(runs[j]) != r.page && runs[j].page != End(r) {
      var x := runs[j];
      if j < i {
        var y := runs[i - 1];
        assert j < i - 1 ==> End(x) < y.page && 1 <= y.size;
      } else {
        var y := runs[i];
        assert i < j ==> End(y) < x.page && 1 <= y.size;
      }
    }
  }

  lemma OneTouches(runs: seq<Run>, i: nat, r: Run, g: Run)
    requires Tidy(runs) && i < |runs| && 1 <= r.size && g.size == runs[i].size + r.size
    requires (End(runs[i]) == r.page && g.page == runs[i].page) || (End(r) == runs[i].page && g.page == r.page)
    requires i > 0 ==> End(runs[i - 1]) < g.page
    requires i + 1 < |runs| ==> End(g) < runs[i + 1].page
    ensures Doubled(runs, r.page, End(r), 0) && Touched(runs, r.page, End(r)) && Joins(runs, r.page, g.page)
  {
    var x := runs[i];
    if End(x) == r.page {
      forall j, k | 0 <= j < k < |runs| && End(runs[j]) == r.page ensures runs[k].page != End(r) {
        SameEnd(runs, i, j);
        var y, b := runs[i + 1], runs[k];
        assert i + 1 < k ==> End(y) < b.page && 1 <= y.size;
      }
    } else {
      forall j | 0 <= j < |runs| ensures End(runs[j]) != r.page {
        var a := runs[j];
        if j < i {
          var y := runs[i - 1];
          assert j < i - 1 ==> End(a) < y.page && 1 <= y.size;
        } else {
          assert i < j ==> End(x) < a.page && 1 <= a.size;
        }
      }
    }
  }

  lemma SameEnd(runs: seq<Run>, i: nat, j: nat)
    requires Tidy(runs) && i < |runs| && j < |runs| && End(runs[i]) == End(runs[j])
    ensures i == j
  {
    var x, y := runs[i], runs[j];
    assert i < j ==> End(x) < y.page && 1 <= y.size;
    assert j < i ==> End(y) < x.page && 1 <= x.size;
  }

  /** Linking `px`, filled in for `r`, at position `i`. */
  lemma FileInsert(h: Holders, order: seq<Addr>, runs: seq<Run>, i: nat, px: Addr, r: Run)
    requires Listed(h, order, runs) && Spare(h, order, px) && i <= |order| && 1 <= r.size
    requires r == Run(h[px].page, h[px].size, h[px].pdir)
    requires i > 0 ==> End(runs[i - 1]) < r.page
    requires i < |runs| ==> End(r) < runs[i].page
    ensures PrevOf(order, i) in h && (Link(order, i) != NULL ==> Link(order, i) in h)
    ensures Listed(LinkHolder(h, px, PrevOf(order, i), Link(order, i)), Insert(order, i, px), Insert(runs, i, r))
    ensures Filed(runs, r, Insert(runs, i, r), i, Total(runs), true)
  {
    TidyInsert(runs, i, r);
    ListedInsert(h, order, runs, i, px, r);
    AddedInsert(runs, i, r);
    TotalInsert(runs, i, r);
    NoneTouches(runs, i, r);
  }

  /** Growing entry `i` by `r` at one end. */
  lemma FileGrow(h: Holders, order: seq<Addr>, runs: seq<Run>, i: nat, r: Run, g: Run)
    requires Listed(h, order, runs) && i < |order| && 1 <= r.size && g.size == runs[i].size + r.size
    requires (End(runs[i]) == r.page && g.page == runs[i].page && g.pdir == runs[i].pdir) || (End(r) == runs[i].page && g.page == r.page && g.pdir == r.pdir)
    requires i > 0 ==> End(runs[i - 1]) < g.page
    requires i + 1 < |runs| ==> End(g) < runs[i + 1].page
    ensures order[i] in h && Listed(PutRun(h, order[i], g), order, runs[i := g])
    ensures Filed(runs, r, runs[i := g], i, Total(runs) - runs[i].size, false)
  {
    Read(h, order, runs, i);
    TidyUpdate(runs, i, g);
    ListedUpdate(h, order, runs, i, g);
    AddedGrow(runs, i, r, g);
    TotalUpdate(runs, i, g);
    OneTouches(runs, i, r, g);
  }

  /** Appending `r` to entry `i`, and entry i + 1 with it because the three touch. */
  lemma FileJoin(h: Holders, order: seq<Addr>, runs: seq<Run>, i: nat, r: Run, g: Run)
    requires Listed(h, order, runs) && i + 1 < |order| && 1 <= r.size && End(runs[i]) == r.page && End(r) == runs[i + 1].page
    requires g == runs[i].(size := runs[i].size + r.size + runs[i + 1].size)
    ensures var pt := order[i + 1]; pt in h && h[pt].prev in h && (h[pt].next != NULL ==> h[pt].next in h)
    ensures var h1 := UnlinkHolder(h, order[i + 1]);
      order[i] in h1 && Listed(PutRun(h1, order[i], g), Delete(order, i + 1), Delete(runs, i + 1)[i := g])
    ensures Filed(runs, r, Delete(runs, i + 1)[i := g], i, Total(runs) - runs[i].size, false)
  {
    Read(h, order, runs, i);
    Read(h, order, runs, i + 1);
    ListedDelete(h, order, runs, i + 1);
    var h1, order1, runs1 := UnlinkHolder(h, order[i + 1]), Delete(order, i + 1), Delete(runs, i + 1);
    assert runs1[i] == runs[i] && order1[i] == order[i];
    assert i > 0 ==> End(runs[i - 1]) < runs[i].page && runs1[i - 1] == runs[i - 1];
    assert i + 2 < |runs| ==> End(runs[i + 1]) < runs[i + 2].page && runs1[i + 1] == runs[i + 2];
    TidyUpdate(runs1, i, g);
    ListedUpdate(h1, order1, runs1, i, g);
    JoinFiled(runs, i, r, g);
  }

  lemma JoinFiled(runs: seq<Run>, i: nat, r: Run, g: Run)
    requires i + 1 < |runs| && 1 <= r.size && 1 <= runs[i].size && 1 <= runs[i + 1].size
    requires End(runs[i]) == r.page && End(r) == runs[i + 1].page && g == runs[i].(size := runs[i].size + r.size + runs[i + 1].size)
    ensures Filed(runs, r, Delete(runs, i + 1)[i := g], i, Total(runs) - runs[i].size, false)
  {
    var runs1 := Delete(runs, i + 1);
    TotalDelete(runs, i + 1);
    TotalUpdate(runs1, i, g);
    var g1 := runs[i].(size := runs[i].size + r.size);
    AddedGrow(runs, i, r, g1);
    AddedJoin(runs, i, r, runs[i := g1], g);
    assert Delete(runs[i := g1][i := g], i + 1) == runs1[i := g];
    BridgesAt(runs, i, r);
  }

  lemma BridgesAt(runs: seq<Run>, i: nat, r: Run)
    requires i + 1 < |runs| && End(runs[i]) == r.page && End(r) == runs[i + 1].page && 1 <= runs[i + 1].size
    ensures Doubled(runs, r.page, End(r), runs[i + 1].size) && Touched(runs, r.page, End(r)) && Joins(runs, r.page, runs[i].page)
  {
    var x, y := runs[i], runs[i + 1];
  }

  /** The state free_pages leaves the list in, and the loose ends it returns. */
  datatype Placing = Placing(h: Holders, px: Addr, pf: Addr, cached: int, pt: Addr, destroyed: bool)

  /** `px` goes in at position `i`, between the holders `pv` and `nx`. */
  method InsertAt(h: Holders, px: Addr, pv: Addr, nx: Addr, r: Run, cached: int, ghost order: seq<Addr>, ghost runs: seq<Run>, ghost i: nat)
    returns (q: Placing, ghost order': seq<Addr>, ghost runs': seq<Run>)
    requires Listed(h, order, runs) && Spare(h, order, px) && r == Run(h[px].page, h[px].size, h[px].pdir) && 1 <= r.size
    requires i <= |order| && pv == PrevOf(order, i) && nx == Link(order, i) && cached == Total(runs)
    requires i > 0 ==> End(runs[i - 1]) < r.page
    requires i < |runs| ==> End(r) < runs[i].page
    ensures !q.destroyed && Listed(q.h, order', runs') && i < |order'| && q.pf == order'[i] && q.px == NULL && q.pt == NULL
    ensures Filed(runs, r, runs', i, q.cached, true)
    ensures q.h.Keys == h.Keys
  {
    FileInsert(h, order, runs, i, px, r);
    q := Placing(LinkHolder(h, px, pv, nx), NULL, px, cached, NULL, false);
    order', runs' := Insert(order, i, px), Insert(runs, i, r);
  }

  /** The insertion of free_pages.  `px` is the spare holder, already filled in for the run `r`. */
  method Place(h: Holders, px: Addr, r: Run, ghost order: seq<Addr>, ghost runs: seq<Run>)
    returns (q: Placing, ghost order': seq<Addr>, ghost runs': seq<Run>, ghost i: nat)
    requires Listed(h, order, runs) && Spare(h, order, px) && r == Run(h[px].page, h[px].size, h[px].pdir)
    requires 1 <= r.size && Clear(runs, r)
    ensures !q.destroyed && Listed(q.h, order', runs') && i < |order'| && q.pf == order'[i]
    ensures Filed(runs, r, runs', i, q.cached, q.px == NULL)
    ensures q.px == NULL || (q.px == px && Spare(q.h, order', px))
    ensures q.pt != NULL ==> Spare(q.h, order', q.pt) && q.pt != px && q.px == px
    ensures q.h.Keys == h.Keys
  {
    Read(h, order, runs, 0);
    if h[FREE_LIST].next == NULL {
      i := 0;
      q, order', runs' := InsertAt(h, px, FREE_LIST, NULL, r, 0, order, runs, 0);
    } else {
      var pf, before;
      pf, before, i := FindSpot(h, r.page, order, runs);
      var after := SumFrom(h, pf, order, runs, i);
      TotalSplit(runs, i);
      q, order', runs', i := PlaceAt(h, px, pf, r, before + after, order, runs, i);
    }
  }

  /** The case analysis of free_pages at the entry where the search stopped. */
  method PlaceAt(h: Holders, px: Addr, pf: Addr, r: Run, cached: int, ghost order: seq<Addr>, ghost runs: seq<Run>, ghost i0: nat)
    returns (q: Placing, ghost order': seq<Addr>, ghost runs': seq<Run>, ghost i: nat)
    requires Listed(h, order, runs) && Spare(h, order, px) && r == Run(h[px].page, h[px].size, h[px].pdir)
    requires 1 <= r.size && Clear(runs, r) && cached == Total(runs)
    requires i0 < |order| && pf == order[i0] && (forall k :: 0 <= k < i0 ==> End(runs[k]) < r.page)
    requires r.page <= End(runs[i0]) || i0 + 1 == |order|
    ensures !q.destroyed && Listed(q.h, order', runs') && i < |order'| && q.pf == order'[i]
    ensures Filed(runs, r, runs', i, q.cached, q.px == NULL)
    ensures q.px == NULL || (q.px == px && Spare(q.h, order', px))
    ensures q.pt != NULL ==> Spare(q.h, order', q.pt) && q.pt != px && q.px == px
    ensures q.h.Keys == h.Keys
  {
    i := i0;
    Read(h, order, runs, i);
    Read(h, order, runs, i + 1);
    ghost var e := runs[i];
    if h[pf].page > End(r) {
      q, order', runs' := InsertAt(h, px, h[pf].prev, pf, r, cached, order, runs, i);
    } else if h[pf].page + h[pf].size == r.page {
      q, order', runs' := Extend(h, px, pf, r, cached, order, runs, i);
    } else if h[pf].page == End(r) {
      q, order', runs' := Prepend(h, px, pf, r, cached, order, runs, i);
    } else if h[pf].next == NULL {
      i := i + 1;
      q, order', runs' := InsertAt(h, px, pf, NULL, r, cached, order, runs, i);
    } else {
      q := Placing(h, px, pf, cached, NULL, true);
      order', runs' := order, runs;
    }
  }

  method Prepend(h: Holders, px: Addr, pf: Addr, r: Run, cached: int, ghost order: seq<Addr>, ghost runs: seq<Run>, ghost i: nat)
    returns (q: Placing, ghost order': seq<Addr>, ghost runs': seq<Run>)
    requires Listed(h, order, runs) && Spare(h, order, px) && 1 <= r.size
    requires i < |order| && pf == order[i] && End(r) == runs[i].page && (i > 0 ==> End(runs[i - 1]) < r.page) && cached == Total(runs)
    ensures !q.destroyed && Listed(q.h, order', runs') && i < |order'| && q.pf == order'[i] && q.px == px && q.pt == NULL
    ensures Filed(runs, r, runs', i, q.cached, false)
    ensures Spare(q.h, order', px) && q.h.Keys == h.Keys
  {
    Read(h, order, runs, i);
    var g := Run(r.page, h[pf].size + r.size, r.pdir);
    ghost var e := runs[i];
    assert i + 1 < |runs| ==> End(e) < runs[i + 1].page;
    FileGrow(h, order, runs, i, r, g);
    q := Placing(PutRun(h, pf, g), px, pf, cached - h[pf].size, NULL, false);
    order', runs' := order, runs[i := g];
  }

  /** The append case, with its collapse of the following entry. */
  method Extend(h: Holders, px: Addr, pf: Addr, r: Run, cached: int, ghost order: seq<Addr>, ghost runs: seq<Run>, ghost i: nat)
    returns (q: Placing, ghost order': seq<Addr>, ghost runs': seq<Run>)
    requires Listed(h, order, runs) && Spare(h, order, px) && 1 <= r.size && Clear(runs, r)
    requires i < |order| && pf == order[i] && End(runs[i]) == r.page && cached == Total(runs)
    ensures !q.destroyed && Listed(q.h, order', runs') && i < |order'| && q.pf == order'[i] && q.px == px
    ensures Filed(runs, r, runs', i, q.cached, false)
    ensures Spare(q.h, order', px) && (q.pt != NULL ==> Spare(q.h, order', q.pt) && q.pt != px)
    ensures q.h.Keys == h.Keys
  {
    Read(h, order, runs, i);
    Read(h, order, runs, i + 1);
    var next := h[pf].next;
    if next != NULL && h[next].page == End(r) {
      q, order', runs' := Collapse(h, px, pf, next, r, cached, order, runs, i);
    } else {
      var g := Run(h[pf].page, h[pf].size + r.size, h[pf].pdir);
      ghost var e := runs[i];
      assert i + 1 < |runs| ==> e.page < runs[i + 1].page;
      FileGrow(h, order, runs, i, r, g);
      q := Placing(PutRun(h, pf, g), px, pf, cached - h[pf].size, NULL, false);
      order', runs' := order, runs[i := g];
    }
  }

  /** "And collapse the next too": its holder falls out of use. */
  method Collapse(h: Holders, px: Addr, pf: Addr, next: Addr, r: Run, cached: int, ghost order: seq<Addr>, ghost runs: seq<Run>, ghost i: nat)
    returns (q: Placing, ghost order': seq<Addr>, ghost runs': seq<Run>)
    requires Listed(h, order, runs) && Spare(h, order, px) && 1 <= r.size && cached == Total(runs)
    requires i + 1 < |order| && pf == order[i] && next == order[i + 1] && End(runs[i]) == r.page && runs[i + 1].page == End(r)
    ensures !q.destroyed && Listed(q.h, order', runs') && i < |order'| && q.pf == order'[i] && q.px == px && q.pt == next
    ensures Filed(runs, r, runs', i, q.cached, false)
    ensures Spare(q.h, order', px) && Spare(q.h, order', next) && next != px && q.h.Keys == h.Keys
  {
    Read(h, order, runs, i);
    Read(h, order, runs, i + 1);
    var g := Run(h[pf].page, h[pf].size + r.size + h[next].size, h[pf].pdir);
    FileJoin(h, order, runs, i, r, g);
    ListedDelete(h, order, runs, i + 1);
    DeleteMembers(order, i + 1);
    q := Placing(PutRun(UnlinkHolder(h, next), pf, g), px, pf, cached - h[pf].size, next, false);
    order', runs' := Delete(order, i + 1), Delete(runs, i + 1)[i := g];
  }

  // ----- taking pages off the list -----

  /** `runs'` covers what `runs` does, except the pages from `a` up to `b`. */
  ghost predicate Removed(runs: seq<Run>, a: int, b: int, runs': seq<Run>) {
    forall p {:trigger InRuns(runs', p)} {:trigger InRuns(runs, p)} :: InRuns(runs', p) <==> InRuns(runs, p) && !(a <= p < b)
  }

  /** Every run of `runs'` starts where one of `runs` does, or at `a` in directory `d`. */
  ghost predicate StartsFrom(runs: seq<Run>, runs': seq<Run>, a: int, d: Addr) {
    forall x, e {:trigger Starts(runs', x, e)} :: Starts(runs', x, e) ==> Starts(runs, x, e) || (x == a && e == d)
  }

  lemma RemovedDelete(runs: seq<Run>, i: nat)
    requires Tidy(runs) && i < |runs|
    ensures Removed(runs, runs[i].page, End(runs[i]), Delete(runs, i))
    ensures StartsFrom(runs, Delete(runs, i), runs[i].page, runs[i].pdir)
  {
    forall p ensures InRuns(Delete(runs, i), p) <==> InRuns(runs, p) && !(runs[i].page <= p < End(runs[i])) {
      InRunsDelete(runs, i, p);
    }
    StartsDelete(runs, i);
  }

  lemma InRunsDelete(runs: seq<Run>, i: nat, p: int)
    requires Tidy(runs) && i < |runs|
    ensures InRuns(Delete(runs, i), p) <==> InRuns(runs, p) && !(runs[i].page <= p < End(runs[i]))
  {
    if InRuns(runs, p) && !(runs[i].page <= p < End(runs[i])) {
      StaysInRuns(runs, i, p);
    }
    if InRuns(Delete(runs, i), p) {
      WasInRuns(runs, i, p);
    }
  }

  lemma StaysInRuns(runs: seq<Run>, i: nat, p: int)
    requires i < |runs| && InRuns(runs, p) && !(runs[i].page <= p < End(runs[i]))
    ensures InRuns(Delete(runs, i), p)
  {
    var k :| 0 <= k < |runs| && runs[k].page <= p < End(runs[k]);
    var k' := if k < i then k else k - 1;
    assert Delete(runs, i)[k'] == runs[k];
    InRunsAt(Delete(runs, i), k', p);
  }

  lemma WasInRuns(runs: seq<Run>, i: nat, p: int)
    requires Tidy(runs) && i < |runs| && InRuns(Delete(runs, i), p)
    ensures InRuns(runs, p) && !(runs[i].page <= p < End(runs[i]))
  {
    var runs' := Delete(runs, i);
    var k :| 0 <= k < |runs'| && runs'[k].page <= p < End(runs'[k]);
    var k0 := if k < i then k else k + 1;
    assert runs'[k] == runs[k0];
    InRunsAt(runs, k0, p);
    if k0 < i {
      assert End(runs[k0]) < runs[i].page;
    } else {
      assert End(runs[i]) < runs[k0].page;
    }
  }

  lemma StartsDelete(runs: seq<Run>, i: nat)
    requires i < |runs|
    ensures StartsFrom(runs, Delete(runs, i), runs[i].page, runs[i].pdir)
  {
    var runs' := Delete(runs, i);
    forall x, e | Starts(runs', x, e) ensures Starts(runs, x, e) {
      var k :| 0 <= k < |runs'| && runs'[k].page == x && runs'[k].pdir == e;
      assert runs'[k] == runs[if k < i then k else k + 1];
    }
  }

  /** `g` is what is left of `r` once [a, b) is cut from one of its ends. */
  ghost predicate CutTo(r: Run, a: int, b: int, g: Run) {
    ( && a < b && 1 <= g.size
      && ((a == r.page && g.page == b && End(g) == End(r)) || (b == End(r) && g.page == r.page && End(g) == a))) == true
  }

  lemma RemovedPart(runs: seq<Run>, i: nat, a: int, b: int, g: Run)
    requires Tidy(runs) && i < |runs| && CutTo(runs[i], a, b, g)
    ensures Removed(runs, a, b, runs[i := g]) && Tidy(runs[i := g])
    ensures StartsFrom(runs, runs[i := g], g.page, g.pdir)
  {
    TidyCut(runs, i, a, b, g);
    forall p ensures InRuns(runs[i := g], p) <==> InRuns(runs, p) && !(a <= p < b) {
      InRunsCut(runs, i, a, b, g, p);
    }
    StartsUpdate(runs, i, g);
  }

  lemma TidyCut(runs: seq<Run>, i: nat, a: int, b: int, g: Run)
    requires Tidy(runs) && i < |runs| && CutTo(runs[i], a, b, g)
    ensures Tidy(runs[i := g])
  {
    var r := runs[i];
    assert i > 0 ==> End(runs[i - 1]) < r.page;
    assert i + 1 < |runs| ==> End(r) < runs[i + 1].page;
    TidyUpdate(runs, i, g);
  }

  lemma InRunsCut(runs: seq<Run>, i: nat, a: int, b: int, g: Run, p: int)
    requires Tidy(runs) && i < |runs| && CutTo(runs[i], a, b, g)
    ensures InRuns(runs[i := g], p) <==> InRuns(runs, p) && !(a <= p < b)
  {
    var runs', r := runs[i := g], runs[i];
    if InRuns(runs, p) && !(a <= p < b) {
      var k :| 0 <= k < |runs| && runs[k].page <= p < End(runs[k]);
      assert runs'[k] == if k == i then g else runs[k];
    }
    if InRuns(runs', p) {
      var k :| 0 <= k < |runs'| && runs'[k].page <= p < End(runs'[k]);
      assert runs'[k] == if k == i then g else runs[k];
      if k < i {
        assert End(runs[k]) < r.page;
      } else if i < k {
        assert End(r) < runs[k].page;
      }
      assert runs[k].page <= p < End(runs[k]);
    }
  }

  lemma StartsUpdate(runs: seq<Run>, i: nat, g: Run)
    requires i < |runs|
    ensures StartsFrom(runs, runs[i := g], g.page, g.pdir)
  {
    var runs' := runs[i := g];
    forall x, e | Starts(runs', x, e) ensures Starts(runs, x, e) || (x == g.page && e == g.pdir) {
      var k :| 0 <= k < |runs'| && runs'[k].page == x && runs'[k].pdir == e;
      assert k != i ==> runs'[k] == runs[k];
    }
  }

  lemma InRunsAt(runs: seq<Run>, i: nat, p: int)
    requires i < |runs| && runs[i].page <= p < End(runs[i])
    ensures InRuns(runs, p)
  {
  }

  lemma StartsAt(runs: seq<Run>, i: nat)
    requires i < |runs|
    ensures Starts(runs, runs[i].page, runs[i].pdir)
  {
  }

  lemma ClearOf(runs: seq<Run>, r: Run)
    requires Tidy(runs) && 1 <= r.size && forall p :: r.page <= p < End(r) ==> !InRuns(runs, p)
    ensures Clear(runs, r)
  {
    forall k | 0 <= k < |runs| ensures End(r) <= runs[k].page || End(runs[k]) <= r.page {
      var e := runs[k];
      var p := if r.page < e.page then e.page else r.page;
      assert e.page <= p < End(e) ==> InRuns(runs, p);
    }
  }

  /**
    What the trimming of free_pages relies on: `cache - cached` does not wrap, keeping that much of the entry keeps
    the whole list within the cache, and that much is nothing if and only if the list was at the limit and no entry
    touched the run.
   */
  lemma TrimBounds(runs: seq<Run>, r: Run, runs': seq<Run>, i: nat, cached: int, inserted: bool, cache: int)
    requires Filed(runs, r, runs', i, cached, inserted) && Total(runs) <= cache && i < |runs'|
    ensures 0 <= cache - cached
    ensures runs'[i].size <= cache - cached ==> Total(runs') <= cache
    ensures Total(runs') - runs'[i].size + (cache - cached) <= cache
    ensures cache - cached == 0 <==> Total(runs) == cache && !Touched(runs, r.page, End(r))
    ensures cache - cached == 0 ==> inserted && runs'[i] == r
  {
  }

  /** One page is listed and fills the cache, and a page apart from it is freed: nothing of that page may stay. */
  lemma CutToNothing(d: Addr, listed: Run, r: Run)
    requires listed == Run(20, 1, d) && r == Run(30, 1, d)
    ensures Filed([listed], r, [listed, r], 1, 1, true) && Total([listed]) == 1 && !Touched([listed], 30, 31)
  {
    assert Insert([listed], 1, r) == [listed, r];
    AddedInsert([listed], 1, r);
    TotalInsert([listed], 1, r);
    NoneTouches([listed], 1, r);
  }
}
