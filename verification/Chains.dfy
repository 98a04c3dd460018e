/**
  Intrusive singly linked chains in explicit memory.

  Nodes are addresses and their link field is a map from addresses.  A table of
  bucket pointers heads a family of chains; a C pointer to a pointer is the
  address of a bucket or of some node's link, and `Slot` names the two.  The
  hash table of ext/ht.h and the chunk-page lists of ext/OpenBSD_malloc_Linux.c
  are both built this way.
 */
module Chains {

  type Addr = int

  const NULL: Addr := 0

  datatype Slot = Bucket(b: nat) | NextOf(e: Addr)

  type Chain = seq<Addr>

  // ----- chains as values -----

  /** The pointer that leads to position `i` of a chain, null at its end. */
  function Link(c: Chain, i: nat): Addr {
    if i < |c| then c[i] else NULL
  }

  function Insert<T>(c: seq<T>, i: nat, x: T): seq<T>
    requires i <= |c|
  {
    seq(|c| + 1, j requires 0 <= j <= |c| => if j < i then c[j] else if j == i then x else c[j - 1])
  }

  function Delete<T>(c: seq<T>, i: nat): seq<T>
    requires i < |c|
  {
    seq(|c| - 1, j requires 0 <= j < |c| - 1 => if j < i then c[j] else c[j + 1])
  }

  lemma InsertMembers(c: Chain, i: nat, x: Addr)
    requires i <= |c|
    ensures forall f :: f in Insert(c, i, x) <==> f == x || f in c
  {
    var c' := Insert(c, i, x);
    assert c'[i] == x;
    forall f | f in c ensures f in c' {
      var j :| 0 <= j < |c| && c[j] == f;
      assert f == if j < i then c'[j] else c'[j + 1];
    }
  }

  lemma DeleteMembers(c: Chain, i: nat)
    requires i < |c| && forall j, k {:trigger c[j], c[k]} :: 0 <= j < k < |c| ==> c[j] != c[k]
    ensures forall f :: f in Delete(c, i) <==> f != c[i] && f in c
  {
    var c' := Delete(c, i);
    forall f | f in c && f != c[i] ensures f in c' {
      var j :| 0 <= j < |c| && c[j] == f;
      assert f == if j < i then c'[j] else c'[j - 1];
    }
    forall f | f in c' ensures f in c && f != c[i] {
      var j :| 0 <= j < |c'| && c'[j] == f;
      assert f == c[if j < i then j else j + 1];
    }
  }

  /** `home` sends each element to the one bucket whose chain holds it, once. */
  ghost predicate Housed(chains: seq<Chain>, home: map<Addr, int>) {
    && (forall b, i {:trigger chains[b][i]} :: 0 <= b < |chains| && 0 <= i < |chains[b]| ==>
          chains[b][i] in home && home[chains[b][i]] == b)
    && (forall e {:trigger home[e]} :: e in home ==> 0 <= home[e] < |chains| && e in chains[home[e]])
    && (forall b, i, j {:trigger chains[b][i], chains[b][j]} ::
          0 <= b < |chains| && 0 <= i < j < |chains[b]| ==> chains[b][i] != chains[b][j])
  }

  lemma HousedInsert(chains: seq<Chain>, home: map<Addr, int>, b: nat, i: nat, e: Addr)
    requires Housed(chains, home) && b < |chains| && i <= |chains[b]| && e !in home
    ensures Housed(chains[b := Insert(chains[b], i, e)], home[e := b])
  {
    InsertMembers(chains[b], i, e);
  }

  lemma HousedDelete(chains: seq<Chain>, home: map<Addr, int>, b: nat, i: nat)
    requires Housed(chains, home) && b < |chains| && i < |chains[b]|
    ensures Housed(chains[b := Delete(chains[b], i)], home - {chains[b][i]})
  {
    assert forall j, k :: 0 <= j < k < |chains[b]| ==> chains[b][j] != chains[b][k];
    DeleteMembers(chains[b], i);
  }

  // ----- chains in memory -----

  /** The address of the pointer at position `i` of chain `b`. */
  function SlotAt(chains: seq<Chain>, b: nat, i: nat): Slot
    requires b < |chains| && i <= |chains[b]|
  {
    if i == 0 then Bucket(b) else NextOf(chains[b][i - 1])
  }

  /** `*p`. */
  function Load(table: seq<Addr>, next: map<Addr, Addr>, p: Slot): Addr
    requires if p.Bucket? then p.b < |table| else p.e in next
  {
    if p.Bucket? then table[p.b] else next[p.e]
  }

  /** `*p = v`, the bucket array's side of it. */
  function PutTable(table: seq<Addr>, p: Slot, v: Addr): seq<Addr>
    requires p.Bucket? ==> p.b < |table|
  {
    if p.Bucket? then table[p.b := v] else table
  }

  /** `*p = v`, the elements' side of it. */
  function PutNext(next: map<Addr, Addr>, p: Slot, v: Addr): map<Addr, Addr> {
    if p.NextOf? then next[p.e := v] else next
  }

  ghost predicate LinkedFrom(next: map<Addr, Addr>, c: Chain, i: nat) {
    forall j {:trigger next[c[j]]} {:trigger c[j] in next} :: i <= j < |c| ==>
      c[j] in next && next[c[j]] == Link(c, j + 1)
  }

  /** Every bucket heads the linked list of its chain, and every element lives in exactly one chain. */
  ghost predicate Threaded(table: seq<Addr>, next: map<Addr, Addr>, chains: seq<Chain>, home: map<Addr, int>) {
    (&& |chains| == |table|
    && NULL !in home && Housed(chains, home)
    && (forall b {:trigger table[b]} {:trigger chains[b]} :: 0 <= b < |chains| ==> table[b] == Link(chains[b], 0))
    && (forall b {:trigger chains[b]} :: 0 <= b < |chains| ==> LinkedFrom(next, chains[b], 0))) == true
  }

  /** The link of an element outside the table may hold anything. */
  lemma ThreadedOutside(table: seq<Addr>, next: map<Addr, Addr>, chains: seq<Chain>, home: map<Addr, int>, x: Addr, v: Addr)
    requires Threaded(table, next, chains, home) && x !in home
    ensures Threaded(table, next[x := v], chains, home)
  {
    var next' := next[x := v];
    forall d, j | 0 <= d < |chains| && 0 <= j < |chains[d]|
      ensures chains[d][j] in next' && next'[chains[d][j]] == Link(chains[d], j + 1)
    {
      assert chains[d][j] in home;
      assert chains[d][j] in next;
    }
  }

  /** Storing `v` at position `i` of chain `b` turns that chain into `c'` when the rest of `c'` is already linked. */
  lemma Rethread(table: seq<Addr>, next: map<Addr, Addr>, chains: seq<Chain>, home: map<Addr, int>,
                 b: nat, i: nat, v: Addr, c': Chain, home': map<Addr, int>)
    requires Threaded(table, next, chains, home) && b < |chains| && i <= |chains[b]|
    requires NULL !in home' && Housed(chains[b := c'], home')
    requires i <= |c'| && v == Link(c', i) && (forall j :: 0 <= j < i ==> c'[j] == chains[b][j])
    requires LinkedFrom(next, c', i)
    ensures var p := SlotAt(chains, b, i); Threaded(PutTable(table, p, v), PutNext(next, p, v), chains[b := c'], home')
  {
    if i > 0 {
      assert chains[b := c'][b] == c';
      RethreadChain(next, chains[b], i, v, c');
      RethreadOthers(next, chains, home, b, i, v);
    }
  }

  lemma RethreadChain(next: map<Addr, Addr>, c: Chain, i: nat, v: Addr, c': Chain)
    requires LinkedFrom(next, c, 0) && 0 < i <= |c| && i <= |c'|
    requires forall j, k :: 0 <= j < k < |c'| ==> c'[j] != c'[k]
    requires v == Link(c', i) && (forall j :: 0 <= j < i ==> c'[j] == c[j])
    requires LinkedFrom(next, c', i)
    ensures LinkedFrom(next[c[i - 1] := v], c', 0)
  {
    var next' := next[c[i - 1] := v];
    forall j | 0 <= j < |c'| ensures c'[j] in next' && next'[c'[j]] == Link(c', j + 1) {
      if j < i {
        assert c[j] in next;
        assert c'[i - 1] == c[i - 1];
      } else {
        assert c'[j] in next;
      }
    }
  }

  lemma RethreadOthers(next: map<Addr, Addr>, chains: seq<Chain>, home: map<Addr, int>, b: nat, i: nat, v: Addr)
    requires Housed(chains, home) && b < |chains| && 0 < i <= |chains[b]|
    requires forall d :: 0 <= d < |chains| ==> LinkedFrom(next, chains[d], 0)
    ensures forall d :: 0 <= d < |chains| && d != b ==> LinkedFrom(next[chains[b][i - 1] := v], chains[d], 0)
  {
    var x := chains[b][i - 1];
    forall d, j | 0 <= d < |chains| && d != b && 0 <= j < |chains[d]|
      ensures chains[d][j] in next && chains[d][j] != x
    {
      assert home[chains[d][j]] == d && home[x] == b;
    }
  }

  lemma ThreadInsert(table: seq<Addr>, next: map<Addr, Addr>, chains: seq<Chain>, home: map<Addr, int>,
                     b: nat, i: nat, e: Addr)
    requires Threaded(table, next, chains, home) && b < |chains| && i <= |chains[b]|
    requires e != NULL && e !in home
    ensures var next', chains', home' := next[e := Link(chains[b], i)], chains[b := Insert(chains[b], i, e)], home[e := b];
      var p := SlotAt(chains, b, i);
      Threaded(PutTable(table, p, e), PutNext(next', p, e), chains', home')
  {
    ThreadedOutside(table, next, chains, home, e, Link(chains[b], i));
    HousedInsert(chains, home, b, i, e);
    var next', c' := next[e := Link(chains[b], i)], Insert(chains[b], i, e);
    forall j | i <= j < |c'| ensures c'[j] in next' && next'[c'[j]] == Link(c', j + 1) {
      if j > i {
        assert c'[j] == chains[b][j - 1] && chains[b][j - 1] in next';
      }
    }
    Rethread(table, next', chains, home, b, i, e, c', home[e := b]);
  }

  lemma ThreadDelete(table: seq<Addr>, next: map<Addr, Addr>, chains: seq<Chain>, home: map<Addr, int>,
                     b: nat, i: nat)
    requires Threaded(table, next, chains, home) && b < |chains| && i < |chains[b]|
    ensures var r := chains[b][i];
      var chains', home' := chains[b := Delete(chains[b], i)], home - {r};
      var p := SlotAt(chains, b, i);
      r in next && Threaded(PutTable(table, p, next[r]), PutNext(next, p, next[r]), chains', home')
  {
    HousedDelete(chains, home, b, i);
    var c, c', r := chains[b], Delete(chains[b], i), chains[b][i];
    assert r in next && next[r] == Link(c', i);
    forall j | i <= j < |c'| ensures c'[j] in next && next[c'[j]] == Link(c', j + 1) {
      assert c'[j] == c[j + 1] && c[j + 1] in next;
    }
    Rethread(table, next, chains, home, b, i, next[r], c', home - {r});
  }

  lemma HousedReplace(chains: seq<Chain>, home: map<Addr, int>, b: nat, i: nat, e: Addr)
    requires Housed(chains, home) && b < |chains| && i < |chains[b]| && e !in home
    ensures Housed(chains[b := chains[b][i := e]], (home - {chains[b][i]})[e := b])
  {
    var c, c', x := chains[b], chains[b][i := e], chains[b][i];
    forall f | f in c && f != x ensures f in c' {
      var j :| 0 <= j < |c| && c[j] == f;
      assert c'[j] == f;
    }
    assert c'[i] == e;
  }

  lemma ThreadReplace(table: seq<Addr>, next: map<Addr, Addr>, chains: seq<Chain>, home: map<Addr, int>,
                      b: nat, i: nat, e: Addr)
    requires Threaded(table, next, chains, home) && b < |chains| && i < |chains[b]|
    requires e != NULL && e !in home
    ensures var r, p := chains[b][i], SlotAt(chains, b, i);
      r in next && Threaded(PutTable(table, p, e), PutNext(next[e := next[r]], p, e),
                            chains[b := chains[b][i := e]], (home - {r})[e := b])
  {
    var c, r := chains[b], chains[b][i];
    var c', next' := c[i := e], next[e := next[r]];
    assert r in next && next[r] == Link(c, i + 1);
    ThreadedOutside(table, next, chains, home, e, next[r]);
    HousedReplace(chains, home, b, i, e);
    forall j | i <= j < |c'| ensures c'[j] in next' && next'[c'[j]] == Link(c', j + 1) {
      if j > i {
        assert c'[j] == c[j] && c[j] in next';
      }
    }
    Rethread(table, next', chains, home, b, i, e, c', (home - {r})[e := b]);
  }

  lemma SlotLoad(table: seq<Addr>, next: map<Addr, Addr>, chains: seq<Chain>, home: map<Addr, int>, b: nat, i: nat)
    requires Threaded(table, next, chains, home) && b < |chains| && i <= |chains[b]|
    ensures var p := SlotAt(chains, b, i);
      (if p.Bucket? then p.b < |table| else p.e in next) && Load(table, next, p) == Link(chains[b], i)
    ensures i < |chains[b]| ==> chains[b][i] in next && chains[b][i] in home && chains[b][i] != NULL
    ensures i < |chains[b]| ==> SlotAt(chains, b, i + 1) == NextOf(chains[b][i])
  {
    if i > 0 {
      assert chains[b][i - 1] in next;
    }
  }

  /** Unlinking what a slot points at leaves the slot at the same position. */
  lemma SlotDelete(chains: seq<Chain>, b: nat, i: nat)
    requires b < |chains| && i < |chains[b]|
    ensures SlotAt(chains[b := Delete(chains[b], i)], b, i) == SlotAt(chains, b, i)
  {
  }
}
