/**
  The intrusive chaining hash table of ext/ht.h.

  Elements are addresses; the two fields that HT_ENTRY adds to each element are
  kept as maps from addresses (`next`, `hash`).  A C pointer to a pointer is the
  address of a bucket or of some element's `hte_next`; `Slot` names the two.
 */
module HashTable {

  import opened Chains

  type Key(==)

  /** The prime sizes, smallest first. */
  const PRIMES: seq<nat> :=
    [53, 97, 193, 389, 769, 1543, 3079, 6151, 12289, 24593, 49157, 98317,
     196613, 393241, 786433, 1572869, 3145739, 6291469, 12582917, 25165843,
     50331653, 100663319, 201326611, 402653189]

  const N_PRIMES: nat := 24

  /** `(unsigned)(0.6 * len)` */
  function LoadLimit(len: nat): nat {
    3 * len / 5
  }

  /** HT_BUCKET_NUM_ */
  function BucketOf(h: int, len: nat): nat
    requires len > 0
  {
    h % len
  }

  /** The element of each key present, and the bucket each element must sit in. */
  ghost predicate Keyed(key: map<Addr, Key>, hashfn: Key -> int, hash: map<Addr, int>, len: nat,
                        home: map<Addr, int>, dict: map<Key, Addr>) {
    && (forall e {:trigger home[e]} {:trigger e in home} :: e in home ==>
          && e in key && key[e] in dict && dict[key[e]] == e
          && e in hash && hash[e] == hashfn(key[e]) && len > 0 && home[e] == BucketOf(hash[e], len))
    && (forall k {:trigger dict[k]} {:trigger k in dict} :: k in dict ==> dict[k] in home && key[dict[k]] == k)
  }

  lemma KeyedHome(key: map<Addr, Key>, hashfn: Key -> int, hash: map<Addr, int>, len: nat,
                  home: map<Addr, int>, dict: map<Key, Addr>, k: Key)
    requires Keyed(key, hashfn, hash, len, home, dict) && k in dict
    ensures len > 0 && dict[k] in home && home[dict[k]] == BucketOf(hashfn(k), len)
  {
    var e := dict[k];
    assert hash[e] == hashfn(k);
  }

  lemma KeyedInsert(key: map<Addr, Key>, hashfn: Key -> int, hash: map<Addr, int>, len: nat,
                    home: map<Addr, int>, dict: map<Key, Addr>, e: Addr)
    requires Keyed(key, hashfn, hash, len, home, dict) && len > 0
    requires e in key && e !in home && key[e] !in dict
    ensures Keyed(key, hashfn, hash[e := hashfn(key[e])], len, home[e := BucketOf(hashfn(key[e]), len)], dict[key[e] := e])
  {
  }

  lemma KeyedDelete(key: map<Addr, Key>, hashfn: Key -> int, hash: map<Addr, int>, len: nat,
                    home: map<Addr, int>, dict: map<Key, Addr>, e: Addr)
    requires Keyed(key, hashfn, hash, len, home, dict) && e in home
    ensures Keyed(key, hashfn, hash, len, home - {e}, dict - {key[e]})
  {
  }

  // ----- growth -----

  /** The limit is six tenths of the length, rounded down; the first table takes 31 elements. */
  lemma LoadLimitExact(len: nat)
    ensures 5 * LoadLimit(len) <= 3 * len < 5 * LoadLimit(len) + 5
    ensures LoadLimit(53) == 31
  {
  }

  /** No size is a multiple of five, so `0.6 * len` is never an integer and its rounding as a double does not matter. */
  lemma NeverOnTheLimit(j: nat)
    requires j < N_PRIMES
    ensures 5 * LoadLimit(PRIMES[j]) < 3 * PRIMES[j] < 5 * LoadLimit(PRIMES[j]) + 5
  {
    assert j == 0 || j == 1 || j == 2 || j == 3 || j == 4 || j == 5 || j == 6 || j == 7 || j == 8 || j == 9 || j == 10 || j == 11
        || j == 12 || j == 13 || j == 14 || j == 15 || j == 16 || j == 17 || j == 18 || j == 19 || j == 20 || j == 21 || j == 22
        || j == 23;
  }

  /** Each step up the prime table raises the load limit by more than one. */
  lemma PrimeStep(j: nat)
    requires j + 1 < N_PRIMES
    ensures LoadLimit(PRIMES[j]) + 1 < LoadLimit(PRIMES[j + 1]) && PRIMES[j] < PRIMES[j + 1]
  {
    assert j == 0 || j == 1 || j == 2 || j == 3 || j == 4 || j == 5 || j == 6 || j == 7 || j == 8 || j == 9 || j == 10 || j == 11
        || j == 12 || j == 13 || j == 14 || j == 15 || j == 16 || j == 17 || j == 18 || j == 19 || j == 20 || j == 21 || j == 22;
  }

  lemma {:induction false} PrimesRise(i: int, j: nat)
    requires -1 <= i < j < N_PRIMES
    ensures (if i == -1 then 0 else PRIMES[i]) < PRIMES[j]
  {
    if j > 0 {
      PrimeStep(j - 1);
      if i < j - 1 {
        PrimesRise(i, j - 1);
      }
    }
  }

  /**
    The do-while of HT_GROW.  Its guard lets the index reach N_PRIMES, and the next turn then reads past the prime
    table: `overrun`, after which nothing can be said about what the code does.
   */
  method PickPrime(prime: int, size: nat) returns (idx: nat, overrun: bool)
    requires -1 <= prime < N_PRIMES - 1
    ensures overrun <==> LoadLimit(PRIMES[N_PRIMES - 1]) <= size
    ensures overrun ==> idx == N_PRIMES
    ensures !overrun ==> prime < idx < N_PRIMES && size < LoadLimit(PRIMES[idx])
    ensures forall j :: prime < j < idx ==> LoadLimit(PRIMES[j]) <= size
  {
    idx, overrun := prime + 1, false;
    while LoadLimit(PRIMES[idx]) <= size && idx < N_PRIMES
      invariant prime < idx < N_PRIMES && !overrun
      invariant forall j :: prime < j < idx ==> LoadLimit(PRIMES[j]) <= size
      decreases N_PRIMES - idx
    {
      idx := idx + 1;
      if idx == N_PRIMES {
        overrun := true;
        return;
      }
    }
    if idx < N_PRIMES - 1 { LimitsRise(idx, N_PRIMES - 1); }
  }

  /** The nodes of `home`, each in the bucket its cached hash selects among `len`. */
  ghost predicate Rehashed(home: map<Addr, int>, hash: map<Addr, int>, len: nat, home': map<Addr, int>) {
    home'.Keys == home.Keys && len > 0 && forall e {:trigger home'[e]} :: e in home' ==> e in hash && home'[e] == BucketOf(hash[e], len)
  }

  /** Position (d, j) has been reached by a walk that stands at (b, i). */
  predicate Before(d: int, j: int, b: int, i: int) {
    d < b || (d == b && j < i)
  }

  /** Links of elements outside the table are left alone. */
  ghost predicate SameOutside(next: map<Addr, Addr>, next': map<Addr, Addr>, inside: set<Addr>) {
    forall e {:trigger next'[e]} {:trigger e in next'} :: e in next && e !in inside ==> e in next' && next'[e] == next[e]
  }

  lemma SameOutsideTrans(next: map<Addr, Addr>, mid: map<Addr, Addr>, next': map<Addr, Addr>, inside: set<Addr>)
    requires SameOutside(next, mid, inside) && SameOutside(mid, next', inside)
    ensures SameOutside(next, next', inside)
  {
  }

  /** The fresh-table rehash walks the old chains and pushes every node on a new bucket. */
  method RehashFresh(table: seq<Addr>, next: map<Addr, Addr>, hash: map<Addr, int>, len: nat,
                     ghost chains: seq<Chain>, ghost home: map<Addr, int>)
    returns (table': seq<Addr>, next': map<Addr, Addr>, ghost chains': seq<Chain>, ghost home': map<Addr, int>)
    requires Threaded(table, next, chains, home) && len > 0
    requires forall e :: e in home ==> e in hash
    ensures |table'| == len && Threaded(table', next', chains', home') && Rehashed(home, hash, len, home')
    ensures SameOutside(next, next', home.Keys)
  {
    next' := next;
    table' := seq(len, _ => NULL);
    chains', home' := seq(len, _ => []), map[];
    for b := 0 to |table|
      invariant |table'| == len && Threaded(table', next', chains', home')
      invariant forall e {:trigger home'[e]} :: e in home' ==> e in hash && home'[e] == BucketOf(hash[e], len)
      invariant Moved(chains, home, home', b, 0) && SameOutside(next, next', home.Keys)
      invariant forall d :: b <= d < |chains| ==> LinkedFrom(next', chains[d], 0)
    {
      var elm := table[b];
      ghost var i := 0;
      while elm != NULL
        invariant i <= |chains[b]| && elm == Link(chains[b], i)
        invariant |table'| == len && Threaded(table', next', chains', home')
        invariant forall e {:trigger home'[e]} :: e in home' ==> e in hash && home'[e] == BucketOf(hash[e], len)
        invariant Moved(chains, home, home', b, i) && SameOutside(next, next', home.Keys)
        invariant LinkedFrom(next', chains[b], i)
        invariant forall d :: b < d < |chains| ==> LinkedFrom(next', chains[d], 0)
        decreases |chains[b]| - i
      {
        assert elm == chains[b][i] && elm in home;
        var nx := next'[elm];
        var b2 := BucketOf(hash[elm], len);
        ThreadInsert(table', next', chains', home', b2, 0, elm);
        MovedStep(chains, home, home', b, i, b2);
        LinkedElsewhere(next', chains, home, b, i, table'[b2]);
        next' := next'[elm := table'[b2]];
        chains' := chains'[b2 := Insert(chains'[b2], 0, elm)];
        home' := home'[elm := b2];
        table' := table'[b2 := elm];
        elm, i := nx, i + 1;
      }
      MovedNext(chains, home, home', b);
    }
    MovedAll(chains, home, home');
  }

  /** `home'` holds exactly the nodes before (b, i). */
  ghost predicate Moved(chains: seq<Chain>, home: map<Addr, int>, home': map<Addr, int>, b: int, i: int) {
    && home'.Keys <= home.Keys
    && (forall d, j {:trigger chains[d][j]} :: 0 <= d < |chains| && 0 <= j < |chains[d]| ==>
          (chains[d][j] in home' <==> Before(d, j, b, i)))
  }

  lemma MovedStep(chains: seq<Chain>, home: map<Addr, int>, home': map<Addr, int>, b: nat, i: nat, b2: int)
    requires Housed(chains, home) && Moved(chains, home, home', b, i) && b < |chains| && i < |chains[b]|
    ensures Moved(chains, home, home'[chains[b][i] := b2], b, i + 1)
  {
    forall d, j | 0 <= d < |chains| && 0 <= j < |chains[d]| ensures chains[d][j] == chains[b][i] ==> d == b && j == i {
      assert home[chains[d][j]] == d && home[chains[b][i]] == b;
    }
  }

  lemma MovedNext(chains: seq<Chain>, home: map<Addr, int>, home': map<Addr, int>, b: nat)
    requires b < |chains| && Moved(chains, home, home', b, |chains[b]|)
    ensures Moved(chains, home, home', b + 1, 0)
  {
  }

  lemma MovedAll(chains: seq<Chain>, home: map<Addr, int>, home': map<Addr, int>)
    requires Housed(chains, home) && Moved(chains, home, home', |chains|, 0)
    ensures home'.Keys == home.Keys
  {
    forall e | e in home ensures e in home' {
      var j :| 0 <= j < |chains[home[e]]| && chains[home[e]][j] == e;
    }
  }

  lemma LinkedElsewhere(next: map<Addr, Addr>, chains: seq<Chain>, home: map<Addr, int>, b: nat, i: nat, v: Addr)
    requires Housed(chains, home) && b < |chains| && i < |chains[b]| && LinkedFrom(next, chains[b], i)
    requires forall d :: b < d < |chains| ==> LinkedFrom(next, chains[d], 0)
    ensures LinkedFrom(next[chains[b][i] := v], chains[b], i + 1)
    ensures forall d :: b < d < |chains| ==> LinkedFrom(next[chains[b][i] := v], chains[d], 0)
  {
    var x := chains[b][i];
    forall j | i < j < |chains[b]| ensures chains[b][j] in next && chains[b][j] != x {
      assert chains[b][j] != chains[b][i];
    }
    forall d, j | b < d < |chains| && 0 <= j < |chains[d]| ensures chains[d][j] in next && chains[d][j] != x {
      assert home[chains[d][j]] == d && home[x] == b;
    }
  }

  /**
    The in-place rehash: the table has been extended with empty buckets and each old bucket is
    walked with a pointer to a pointer, moving every node that now belongs elsewhere.  A node may
    land in a bucket already walked or in one still to come.
   */
  method RehashInPlace(table: seq<Addr>, next: map<Addr, Addr>, hash: map<Addr, int>, len: nat,
                       ghost chains: seq<Chain>, ghost home: map<Addr, int>)
    returns (table': seq<Addr>, next': map<Addr, Addr>, ghost chains': seq<Chain>, ghost home': map<Addr, int>)
    requires Threaded(table, next, chains, home) && len > |table|
    requires forall e :: e in home ==> e in hash
    ensures |table'| == len && Threaded(table', next', chains', home') && Rehashed(home, hash, len, home')
    ensures SameOutside(next, next', home.Keys)
  {
    table', next' := table + seq(len - |table|, _ => NULL), next;
    chains', home' := chains + seq(len - |table|, _ => []), home;
    HousedExtend(chains, home, len);
    for b := 0 to |table|
      invariant |table'| == len && Threaded(table', next', chains', home') && home'.Keys == home.Keys
      invariant Settled(chains', hash, len, |table|, b, 0) && SameOutside(next, next', home.Keys)
    {
      ghost var mid := next';
      table', next', chains', home' := SettleBucket(table', next', hash, b, |table|, chains', home');
      SameOutsideTrans(next, mid, next', home.Keys);
    }
    forall e | e in home' ensures home'[e] == BucketOf(hash[e], len) {
      var j :| 0 <= j < |chains'[home'[e]]| && chains'[home'[e]][j] == e;
    }
  }

  /** The walk over one old bucket. */
  method SettleBucket(table: seq<Addr>, next: map<Addr, Addr>, hash: map<Addr, int>, b: nat, ghost old_len: nat,
                      ghost chains: seq<Chain>, ghost home: map<Addr, int>)
    returns (table': seq<Addr>, next': map<Addr, Addr>, ghost chains': seq<Chain>, ghost home': map<Addr, int>)
    requires Threaded(table, next, chains, home) && b < |table|
    requires Settled(chains, hash, |table|, old_len, b, 0)
    ensures |table'| == |table| && Threaded(table', next', chains', home') && home'.Keys == home.Keys
    ensures Settled(chains', hash, |table|, old_len, b + 1, 0) && SameOutside(next, next', home.Keys)
  {
    table', next', chains', home' := table, next, chains, home;
    var pE, done := Bucket(b), false;
    ghost var i: nat := 0;
    while !done
      invariant |table'| == |table| && home'.Keys == home.Keys && b < |chains'|
      invariant Walking(table', next', hash, pE, b, old_len, chains', home', i, next)
      invariant i <= |chains'[b]| && (done ==> i == |chains'[b]|)
      decreases |chains'[b]| - i, !done
    {
      table', next', pE, done, chains', home', i := WalkStep(table', next', hash, pE, b, old_len, chains', home', i, next);
    }
    SettledNext(chains', hash, |table|, old_len, b);
  }

  /** The walk over bucket `b` stands at `pE`: what lies behind it is settled. */
  ghost predicate Walking(table: seq<Addr>, next: map<Addr, Addr>, hash: map<Addr, int>, pE: Slot, b: nat, old_len: nat,
                          chains: seq<Chain>, home: map<Addr, int>, i: nat, next0: map<Addr, Addr>) {
    ( && Threaded(table, next, chains, home) && b < |table| && i <= |chains[b]| && pE == SlotAt(chains, b, i)
      && Settled(chains, hash, |table|, old_len, b, i) && SameOutside(next0, next, home.Keys)) == true
  }

  /** One turn of the walk: stop at the end of the chain, step past a node that may stay, or move one that may not. */
  method WalkStep(table: seq<Addr>, next: map<Addr, Addr>, hash: map<Addr, int>, pE: Slot, b: nat, ghost old_len: nat,
                  ghost chains: seq<Chain>, ghost home: map<Addr, int>, ghost i: nat, ghost next0: map<Addr, Addr>)
    returns (table': seq<Addr>, next': map<Addr, Addr>, pE': Slot, done: bool,
             ghost chains': seq<Chain>, ghost home': map<Addr, int>, ghost i': nat)
    requires Walking(table, next, hash, pE, b, old_len, chains, home, i, next0)
    ensures |table'| == |table| && home'.Keys == home.Keys && b < |chains| == |chains'|
    ensures Walking(table', next', hash, pE', b, old_len, chains', home', i', next0) && i' <= |chains'[b]|
    ensures if done then i' == i == |chains[b]| && chains' == chains else |chains'[b]| - i' < |chains[b]| - i
  {
    SlotLoad(table, next, chains, home, b, i);
    table', next', chains', home' := table, next, chains, home;
    pE', i', done := pE, i, false;
    var e := Load(table, next, pE);
    if e == NULL { done := true; return; }
    var b2 := BucketOf(hash[e], |table|);
    if b2 == b {
      SettledStay(chains, hash, |table|, old_len, b, i);
      pE', i' := NextOf(e), i + 1;
    } else {
      table', next', chains', home' := MoveNode(table, next, hash, pE, e, b2, old_len, chains, home, b, i);
      SameOutsideTrans(next0, next, next', home.Keys);
    }
  }

  /** `*pE = e->next; e->next = table[b2]; table[b2] = e`. */
  method MoveNode(table: seq<Addr>, next: map<Addr, Addr>, ghost hash: map<Addr, int>, pE: Slot, e: Addr, b2: nat, ghost old_len: nat,
                  ghost chains: seq<Chain>, ghost home: map<Addr, int>, ghost b: nat, ghost i: nat)
    returns (table': seq<Addr>, next': map<Addr, Addr>, ghost chains': seq<Chain>, ghost home': map<Addr, int>)
    requires Threaded(table, next, chains, home) && b < |chains| && i < |chains[b]| && b2 < |chains| && b2 != b
    requires pE == SlotAt(chains, b, i) && e == chains[b][i] && e in next
    requires Settled(chains, hash, |table|, old_len, b, i) && BucketOf(hash[e], |table|) == b2
    ensures |table'| == |table| && Threaded(table', next', chains', home') && home'.Keys == home.Keys
    ensures |chains'[b]| == |chains[b]| - 1 && pE == SlotAt(chains', b, i) && Settled(chains', hash, |table|, old_len, b, i)
    ensures SameOutside(next, next', home.Keys)
  {
    ThreadMove(table, next, chains, home, b, i, b2);
    SettledMove(chains, hash, |table|, old_len, b, i, b2);
    chains', home' := Moving(chains, b, i, b2), home[e := b2];
    table', next' := PutTable(table, pE, next[e]), PutNext(next, pE, next[e]);
    next' := next'[e := table'[b2]];
    table' := table'[b2 := e];
  }

  /** Every node of a bucket outside the part still to be walked sits where its hash puts it. */
  ghost predicate Settled(chains: seq<Chain>, hash: map<Addr, int>, len: nat, old_len: nat, b: int, i: int) {
    len > 0 &&
    forall d, j {:trigger chains[d][j]} :: 0 <= d < |chains| && 0 <= j < |chains[d]| ==>
      && chains[d][j] in hash
      && (Before(d, j, b, i) || d >= old_len ==> BucketOf(hash[chains[d][j]], len) == d)
  }

  /** The chains after the node at (b, i) has been pushed on bucket b2. */
  function Moving(chains: seq<Chain>, b: nat, i: nat, b2: nat): seq<Chain>
    requires b < |chains| && i < |chains[b]| && b2 < |chains| && b2 != b
  {
    var cut := chains[b := Delete(chains[b], i)];
    cut[b2 := Insert(chains[b2], 0, chains[b][i])]
  }

  lemma ThreadMove(table: seq<Addr>, next: map<Addr, Addr>, chains: seq<Chain>, home: map<Addr, int>,
                   b: nat, i: nat, b2: nat)
    requires Threaded(table, next, chains, home) && b < |chains| && i < |chains[b]| && b2 < |chains| && b2 != b
    ensures var e, p := chains[b][i], SlotAt(chains, b, i);
      && e in next
      && var table1, next1 := PutTable(table, p, next[e]), PutNext(next, p, next[e]);
      Threaded(table1[b2 := e], next1[e := table1[b2]], Moving(chains, b, i, b2), home[e := b2])
  {
    var e, p := chains[b][i], SlotAt(chains, b, i);
    ThreadDelete(table, next, chains, home, b, i);
    var cut := chains[b := Delete(chains[b], i)];
    var table1, next1 := PutTable(table, p, next[e]), PutNext(next, p, next[e]);
    ThreadInsert(table1, next1, cut, home - {e}, b2, 0, e);
    assert (home - {e})[e := b2] == home[e := b2];
  }

  lemma SettledMove(chains: seq<Chain>, hash: map<Addr, int>, len: nat, old_len: nat, b: nat, i: nat, b2: nat)
    requires Settled(chains, hash, len, old_len, b, i) && b < |chains| && i < |chains[b]| && b2 < |chains| && b2 != b
    requires BucketOf(hash[chains[b][i]], len) == b2
    ensures Settled(Moving(chains, b, i, b2), hash, len, old_len, b, i)
  {
    var moved := Moving(chains, b, i, b2);
    forall d, j | 0 <= d < |moved| && 0 <= j < |moved[d]|
      ensures moved[d][j] in hash && (Before(d, j, b, i) || d >= old_len ==> BucketOf(hash[moved[d][j]], len) == d)
    {
      if d == b2 && j > 0 {
        assert moved[d][j] == chains[d][j - 1];
      } else if d == b {
        assert moved[d][j] == chains[d][if j < i then j else j + 1];
      }
    }
  }

  lemma SettledStay(chains: seq<Chain>, hash: map<Addr, int>, len: nat, old_len: nat, b: nat, i: nat)
    requires Settled(chains, hash, len, old_len, b, i) && b < |chains| && i < |chains[b]|
    requires BucketOf(hash[chains[b][i]], len) == b
    ensures Settled(chains, hash, len, old_len, b, i + 1)
  {
  }

  lemma SettledNext(chains: seq<Chain>, hash: map<Addr, int>, len: nat, old_len: nat, b: nat)
    requires b < |chains| && Settled(chains, hash, len, old_len, b, |chains[b]|)
    ensures Settled(chains, hash, len, old_len, b + 1, 0)
  {
  }

  lemma HousedExtend(chains: seq<Chain>, home: map<Addr, int>, len: nat)
    requires Housed(chains, home) && len >= |chains|
    ensures Housed(chains + seq(len - |chains|, _ => []), home)
  {
    var chains' := chains + seq(len - |chains|, _ => []);
    assert forall d :: 0 <= d < |chains'| ==> chains'[d] == if d < |chains| then chains[d] else [];
  }

  /** `struct name`: the table head. An empty table stands for the null pointer. */
  datatype Head = Head(table: seq<Addr>, n: nat, limit: nat, prime: int)

  /** The HT_ENTRY fields of every element. */
  datatype Links = Links(next: map<Addr, Addr>, hash: map<Addr, int>)

  datatype Model = Model(chains: seq<Chain>, home: map<Addr, int>, dict: map<Key, Addr>)

  /** The table size is one of the primes, or there is no table yet. */
  predicate Shape(h: Head) {
    if h.prime == -1 then
      h.table == [] && h.n == 0 && h.limit == 0
    else
      0 <= h.prime < N_PRIMES && |h.table| == PRIMES[h.prime] && h.limit == LoadLimit(|h.table|)
  }

  /** No earlier growth was refused for want of memory, as far as the counters can tell. */
  predicate WithinLoad(h: Head) {
    h.prime == N_PRIMES - 1 || h.n <= h.limit
  }

  /** Whether the test that opens the insertions asks for a growth. */
  predicate WantsGrowth(h: Head) {
    h.table == [] || h.n >= h.limit
  }

  /** HT_GROW reads past the prime table when it is asked for room for `size` elements. */
  predicate Overruns(h: Head, size: nat) {
    h.prime != N_PRIMES - 1 && h.limit <= size && LoadLimit(PRIMES[N_PRIMES - 1]) <= size
  }

  /** What the insertions need so that a growth they trigger stays inside the prime table. */
  predicate CanGrow(h: Head) {
    h.prime == N_PRIMES - 1 || h.n < h.limit || h.n + 1 < LoadLimit(PRIMES[N_PRIMES - 1])
  }

  /** CanGrow is exactly that: an insertion reads past the prime table if and only if it does not hold. */
  lemma CanGrowExact(h: Head)
    requires Shape(h)
    ensures CanGrow(h) <==> !(WantsGrowth(h) && Overruns(h, h.n + 1))
  {
    if h.prime == -1 {
      LimitsRise(-1, N_PRIMES - 1);
    }
  }

  /** A head at which it does not hold: every growth since the first was refused, and the table of 53 buckets filled up. */
  lemma CannotGrow(h: Head)
    requires h == Head(seq(53, _ => NULL), LoadLimit(PRIMES[N_PRIMES - 1]), LoadLimit(53), 0)
    ensures Shape(h) && !CanGrow(h) && !WithinLoad(h)
  {
    LimitsRise(0, N_PRIMES - 1);
  }

  lemma WithinLoadCanGrow(h: Head)
    requires Shape(h) && WithinLoad(h)
    ensures CanGrow(h)
  {
    if h.prime < N_PRIMES - 1 {
      LimitsRise(h.prime, N_PRIMES - 1);
    }
  }

  lemma {:induction false} LimitsRise(i: int, j: nat)
    requires -1 <= i < j < N_PRIMES
    ensures (if i == -1 then 1 else LoadLimit(PRIMES[i]) + 1) < LoadLimit(PRIMES[j])
  {
    if j > 0 {
      PrimeStep(j - 1);
      if i < j - 1 {
        LimitsRise(i, j - 1);
      }
    }
  }

  lemma KeyedRehash(key: map<Addr, Key>, hashfn: Key -> int, hash: map<Addr, int>, len: nat,
                    home: map<Addr, int>, dict: map<Key, Addr>, len': nat, home': map<Addr, int>)
    requires Keyed(key, hashfn, hash, len, home, dict) && Rehashed(home, hash, len', home')
    ensures Keyed(key, hashfn, hash, len', home', dict)
  {
    forall e | e in home' ensures e in home {}
    forall k | k in dict ensures dict[k] in home' {
      var e := dict[k];
      assert e in home;
    }
  }

  lemma KeyedReplace(key: map<Addr, Key>, hashfn: Key -> int, hash: map<Addr, int>, len: nat,
                     home: map<Addr, int>, dict: map<Key, Addr>, r: Addr, e: Addr)
    requires Keyed(key, hashfn, hash, len, home, dict) && r in home
    requires e in key && e !in home && key[e] == key[r] && e in hash && hash[e] == hashfn(key[e])
    ensures Keyed(key, hashfn, hash, len, (home - {r})[e := home[r]], dict[key[e] := e])
  {
    assert hash[e] == hash[r];
  }

  // ----- iteration -----

  datatype Cursor = Done | At(p: Slot)

  /** The first non-empty bucket at or after `b`. */
  function FirstFrom(chains: seq<Chain>, b: nat): (d: nat)
    requires b <= |chains|
    ensures b <= d <= |chains| && (d < |chains| ==> chains[d] != [])
    ensures forall k :: b <= k < d ==> chains[k] == []
    decreases |chains| - b
  {
    if b == |chains| || chains[b] != [] then b else FirstFrom(chains, b + 1)
  }

  function CursorAt(chains: seq<Chain>, b: nat, i: nat): Cursor
    requires b <= |chains| && (b < |chains| ==> i <= |chains[b]|)
  {
    if b == |chains| then Done else At(SlotAt(chains, b, i))
  }

  function NextPos(chains: seq<Chain>, b: nat, i: nat): (nat, nat)
    requires b < |chains|
  {
    if i + 1 < |chains[b]| then (b, i + 1) else (FirstFrom(chains, b + 1), 0)
  }

  function Flatten(chains: seq<Chain>): Chain {
    if chains == [] then [] else Flatten(chains[..|chains| - 1]) + chains[|chains| - 1]
  }

  lemma {:induction false} FlattenEmpties(chains: seq<Chain>, b: nat, d: nat)
    requires b <= d <= |chains| && forall k :: b <= k < d ==> chains[k] == []
    ensures Flatten(chains[..d]) == Flatten(chains[..b])
    decreases d
  {
    if b < d {
      assert chains[..d][..d - 1] == chains[..d - 1];
      FlattenEmpties(chains, b, d - 1);
    }
  }

  lemma FlattenSkip(chains: seq<Chain>, b: nat)
    requires b <= |chains|
    ensures Flatten(chains[..FirstFrom(chains, b)]) == Flatten(chains[..b])
  {
    FlattenEmpties(chains, b, FirstFrom(chains, b));
  }

  /** The elements before a cursor, then the one under it, are the elements before the next cursor. */
  lemma FlattenNext(chains: seq<Chain>, b: nat, i: nat)
    requires b < |chains| && i < |chains[b]|
    ensures var (b', i') := NextPos(chains, b, i);
      Flatten(chains[..b]) + chains[b][..i] + [chains[b][i]]
      == Flatten(chains[..b']) + if b' < |chains| then chains[b'][..i'] else []
  {
    assert chains[b][..i] + [chains[b][i]] == chains[b][..i + 1];
    if i + 1 == |chains[b]| {
      assert chains[b][..i + 1] == chains[b];
      assert chains[..b + 1][..b] == chains[..b];
      FlattenSkip(chains, b + 1);
    }
  }

  ghost predicate Distinct(s: Chain) {
    forall i, j :: 0 <= i < j < |s| ==> s[i] != s[j]
  }

  /** The first `n` buckets hold, once each, the elements whose home is among them. */
  lemma {:induction false} FlattenHoused(chains: seq<Chain>, home: map<Addr, int>, n: nat)
    requires Housed(chains, home) && n <= |chains|
    ensures forall e :: e in Flatten(chains[..n]) <==> e in home && home[e] < n
    ensures Distinct(Flatten(chains[..n]))
  {
    if n > 0 {
      FlattenHoused(chains, home, n - 1);
      var g, c, f := Flatten(chains[..n - 1]), chains[n - 1], Flatten(chains[..n]);
      assert chains[..n][..n - 1] == chains[..n - 1];
      assert f == g + c;
      assert forall e :: e in c <==> e in home && home[e] == n - 1;
      forall i, j | 0 <= i < j < |f| ensures f[i] != f[j] {
        if j < |g| {
          assert f[i] == g[i] && f[j] == g[j] && g[i] != g[j];
        } else if i < |g| {
          assert f[i] == g[i] && f[j] == c[j - |g|];
          var x, y := g[i], c[j - |g|];
          assert x in g && y in c;
          assert home[x] < n - 1 && home[y] == n - 1;
        } else {
          assert f[i] == chains[n - 1][i - |g|] && f[j] == chains[n - 1][j - |g|];
        }
      }
    }
  }

  lemma ValuesAreHoused(key: map<Addr, Key>, hashfn: Key -> int, hash: map<Addr, int>, len: nat,
                        home: map<Addr, int>, dict: map<Key, Addr>)
    requires Keyed(key, hashfn, hash, len, home, dict)
    ensures home.Keys == dict.Values && |home| == |dict|
    decreases |dict|
  {
    forall e | e in home ensures e in dict.Values {
      assert dict[key[e]] == e;
    }
    forall e | e in dict.Values ensures e in home {
      var k :| k in dict && dict[k] == e;
    }
    if dict != map[] {
      var k :| k in dict;
      var e := dict[k];
      assert e in home && key[e] == k;
      KeyedDelete(key, hashfn, hash, len, home, dict, e);
      ValuesAreHoused(key, hashfn, hash, len, home - {e}, dict - {k});
      assert |dict - {k}| == |dict| - 1 && |home - {e}| == |home| - 1;
    }
  }

  lemma {:induction false} DistinctCard(s: seq<Addr>, keys: set<Addr>)
    requires Distinct(s)
    requires forall e :: e in s <==> e in keys
    ensures |s| == |keys|
  {
    if s == [] {
      assert forall e :: e in keys ==> e in s;
    } else {
      var t, x := s[..|s| - 1], s[|s| - 1];
      forall e ensures e in t <==> e in keys - {x} {
        if e in keys - {x} {
          var j :| 0 <= j < |s| && s[j] == e;
          assert t[j] == e;
        }
      }
      assert x in keys;
      DistinctCard(t, keys - {x});
    }
  }

  /** Read bucket by bucket, the chains hold exactly the dictionary's elements, once each. */
  lemma FlattenComplete(key: map<Addr, Key>, hashfn: Key -> int, hash: map<Addr, int>, len: nat,
                        chains: seq<Chain>, home: map<Addr, int>, dict: map<Key, Addr>)
    requires Keyed(key, hashfn, hash, len, home, dict) && Housed(chains, home)
    ensures var s := Flatten(chains[..|chains|]); Distinct(s) && |s| == |dict| && forall e :: e in s <==> e in dict.Values
  {
    FlattenHoused(chains, home, |chains|);
    ValuesAreHoused(key, hashfn, hash, len, home, dict);
    DistinctCard(Flatten(chains[..|chains|]), home.Keys);
  }

  // ----- passes that remove -----

  /** What is left of a dictionary once the elements `doomed` selects have gone. */
  function Survivors(dict: map<Key, Addr>, doomed: Addr -> bool): map<Key, Addr> {
    map k | k in dict && !doomed(dict[k]) :: dict[k]
  }

  /** No element before (b, i) is doomed. */
  ghost predicate Spared(chains: seq<Chain>, doomed: Addr -> bool, b: int, i: int) {
    forall d, j {:trigger chains[d][j]} :: 0 <= d < |chains| && 0 <= j < |chains[d]| && Before(d, j, b, i) ==> !doomed(chains[d][j])
  }

  /** Only doomed elements have been dropped. */
  ghost predicate Sifted(before: map<Key, Addr>, dict: map<Key, Addr>, doomed: Addr -> bool) {
    && (forall k {:trigger dict[k]} :: k in dict ==> k in before && before[k] == dict[k])
    && (forall k {:trigger before[k]} :: k in before && k !in dict ==> doomed(before[k]))
  }

  lemma SiftedTrans(a: map<Key, Addr>, b: map<Key, Addr>, c: map<Key, Addr>, doomed: Addr -> bool)
    requires Sifted(a, b, doomed) && Sifted(b, c, doomed)
    ensures Sifted(a, c, doomed)
  {
    forall k | k in c ensures k in a && a[k] == c[k] {
      assert b[k] == c[k];
    }
  }

  lemma SiftedDrop(dict: map<Key, Addr>, k: Key, doomed: Addr -> bool)
    requires k in dict && doomed(dict[k])
    ensures Sifted(dict, dict - {k}, doomed) && |dict - {k}| == |dict| - 1
  {
  }

  lemma SparedDelete(chains: seq<Chain>, doomed: Addr -> bool, b: nat, i: nat)
    requires Spared(chains, doomed, b, i) && b < |chains| && i < |chains[b]|
    ensures var chains' := chains[b := Delete(chains[b], i)];
      && Spared(chains', doomed, b, i)
      && (i == |chains'[b]| ==> Spared(chains', doomed, FirstFrom(chains', b + 1), 0))
  {
    var chains' := chains[b := Delete(chains[b], i)];
    forall d, j | 0 <= d < |chains'| && 0 <= j < |chains'[d]| && Before(d, j, b, i) ensures !doomed(chains'[d][j]) {
      assert chains'[d][j] == chains[d][j];
    }
    forall d, j | i == |chains'[b]| && 0 <= d < |chains'| && 0 <= j < |chains'[d]| && Before(d, j, FirstFrom(chains', b + 1), 0)
      ensures !doomed(chains'[d][j])
    {
      assert chains'[d][j] == chains[d][j] && Before(d, j, b, i);
    }
  }

  lemma SparedNext(chains: seq<Chain>, doomed: Addr -> bool, b: nat, i: nat)
    requires Spared(chains, doomed, b, i) && b < |chains| && i < |chains[b]| && !doomed(chains[b][i])
    ensures var (b', i') := NextPos(chains, b, i); Spared(chains, doomed, b', i')
  {
  }

  lemma SiftedAll(key: map<Addr, Key>, hashfn: Key -> int, hash: map<Addr, int>, len: nat, chains: seq<Chain>,
                  home: map<Addr, int>, before: map<Key, Addr>, dict: map<Key, Addr>, doomed: Addr -> bool)
    requires Keyed(key, hashfn, hash, len, home, dict) && Housed(chains, home)
    requires Spared(chains, doomed, |chains|, 0) && Sifted(before, dict, doomed)
    ensures dict == Survivors(before, doomed)
  {
    forall k | k in dict ensures !doomed(dict[k]) {
      var e := dict[k];
      assert e in home;
      var j :| 0 <= j < |chains[home[e]]| && chains[home[e]][j] == e;
    }
  }

  // ----- whole runs -----

  /** One call of a client; the flags of an insertion are the outcomes of its two allocations. */
  datatype Call =
    | Inserting(elm: Addr, fresh_ok: bool, realloc_ok: bool)
    | Replacing(elm: Addr, fresh_ok: bool, realloc_ok: bool)
    | Finding(elm: Addr, newent: Addr, fresh_ok: bool, realloc_ok: bool)
    | Removing(elm: Addr)
    | Sweeping(doomed: Addr -> bool)
    | Filtering(doomed: Addr -> bool)

  /** What the macros ask of a caller, who also has memory to spare. */
  predicate Legal(key: map<Addr, Key>, dict: map<Key, Addr>, c: Call) {
    match c
    case Inserting(elm, fresh_ok, realloc_ok) => elm in key && elm != NULL && key[elm] !in dict && (fresh_ok || realloc_ok)
    case Replacing(elm, fresh_ok, realloc_ok) => elm in key && elm != NULL && elm !in dict.Values && (fresh_ok || realloc_ok)
    case Finding(elm, newent, fresh_ok, realloc_ok) =>
      && elm in key && newent in key && key[newent] == key[elm] && newent != NULL && newent !in dict.Values
      && (fresh_ok || realloc_ok)
    case Removing(elm) => elm in key
    case _ => true
  }

  /** The map after one call. */
  function Called(key: map<Addr, Key>, dict: map<Key, Addr>, c: Call): map<Key, Addr>
    requires Legal(key, dict, c)
  {
    match c
    case Inserting(elm, _, _) => dict[key[elm] := elm]
    case Replacing(elm, _, _) => dict[key[elm] := elm]
    case Finding(elm, newent, _, _) => if key[elm] in dict then dict else dict[key[elm] := newent]
    case Removing(elm) => dict - {key[elm]}
    case Sweeping(doomed) => Survivors(dict, doomed)
    case Filtering(doomed) => Survivors(dict, doomed)
  }

  /** There are no more elements than the load limit of the largest table. */
  ghost predicate FitsLastPrime(dict: map<Key, Addr>) {
    |dict| <= LoadLimit(PRIMES[N_PRIMES - 1])
  }

  lemma LoadFits(h: Head, dict: map<Key, Addr>)
    requires Shape(h) && h.n == |dict|
    ensures WithinLoad(h) ==> (h.table == [] || h.n <= h.limit <==> FitsLastPrime(dict))
  {
    if h.prime < N_PRIMES - 1 { LimitsRise(h.prime, N_PRIMES - 1); }
  }

  /** `states` are the maps a legal run goes through. */
  ghost predicate Run(key: map<Addr, Key>, calls: seq<Call>, states: seq<map<Key, Addr>>) {
    && |states| == |calls| + 1
    && forall i {:trigger calls[i]} :: 0 <= i < |calls| ==> Legal(key, states[i], calls[i]) && states[i + 1] == Called(key, states[i], calls[i])
  }

  /** The answers of HT_REP_IS_BAD_ after each call of a run: 0 exactly while the map fits the largest table. */
  ghost predicate Reported(reports: seq<int>, states: seq<map<Key, Addr>>) {
    (&& |states| == |reports| + 1
     && forall i {:trigger reports[i]} :: 0 <= i < |reports| ==> (reports[i] == 0 <==> FitsLastPrime(states[i + 1]))) == true
  }

  lemma ReportedNext(reports: seq<int>, states: seq<map<Key, Addr>>, n: nat, bad: int)
    requires n + 1 < |states| && Reported(reports, states[..n + 1]) && (bad == 0 <==> FitsLastPrime(states[n + 1]))
    ensures Reported(reports + [bad], states[..n + 2])
  {
    var reports', states' := reports + [bad], states[..n + 2];
    forall i | 0 <= i < |reports'| ensures reports'[i] == 0 <==> FitsLastPrime(states'[i + 1]) {
      if i < n { assert states[..n + 1][i + 1] == states'[i + 1] && reports'[i] == reports[i]; }
    }
  }

  /** What a removal leaves alone: the size and the limits of the table, and the links of elements outside it. */
  ghost predicate Thinned(h: Head, l: Links, m: Model, h': Head, l': Links, m': Model) {
    ( && h'.prime == h.prime && h'.limit == h.limit && |h'.table| == |h.table| && h'.n <= h.n
      && m'.home.Keys <= m.home.Keys && SameOutside(l.next, l'.next, m.home.Keys)) == true
  }

  lemma ThinnedTrans(h: Head, l: Links, m: Model, h1: Head, l1: Links, m1: Model, h2: Head, l2: Links, m2: Model)
    requires Thinned(h, l, m, h1, l1, m1) && Thinned(h1, l1, m1, h2, l2, m2)
    ensures Thinned(h, l, m, h2, l2, m2)
  {
  }

  lemma ThinnedRefl(h: Head, l: Links, m: Model)
    ensures Thinned(h, l, m, h, l, m)
  {
  }

  /** A removal keeps a table within its load. */
  lemma ThinnedLoad(h: Head, l: Links, m: Model, h': Head, l': Links, m': Model)
    requires Thinned(h, l, m, h', l', m')
    ensures h'.prime == h.prime && h'.limit == h.limit && (WithinLoad(h) ==> WithinLoad(h')) && SameOutside(l.next, l'.next, m.home.Keys)
  {
  }

  /** Storing through a slot of the table touches no link outside it. */
  lemma StoreInside(chains: seq<Chain>, home: map<Addr, int>, next: map<Addr, Addr>, b: nat, i: nat, v: Addr)
    requires Housed(chains, home) && b < |chains| && i <= |chains[b]|
    ensures SameOutside(next, PutNext(next, SlotAt(chains, b, i), v), home.Keys)
  {
    if i > 0 { assert chains[b][i - 1] in home; }
  }

  class Table {
    const key: map<Addr, Key>    // the contents that eqfn compares
    const hashfn: Key -> int
    var head: Head
    var links: Links
    ghost var m: Model

    ghost predicate Valid()
      reads this
    {
      (&& Shape(head)
       && Threaded(head.table, links.next, m.chains, m.home)
       && Keyed(key, hashfn, links.hash, |head.table|, m.home, m.dict)
       && head.n == |m.dict|) == true
    }

    /** HT_INIT, over elements whose links hold whatever they hold. */
    constructor (key: map<Addr, Key>, hashfn: Key -> int, links: Links)
      ensures Valid() && m.dict == map[] && this.key == key && this.hashfn == hashfn && this.links == links
      ensures WithinLoad(head) && head.prime == -1
    {
      this.key, this.hashfn, this.links := key, hashfn, links;
      head := Head([], 0, 0, -1);
      m := Model([], map[], map[]);
    }

    /** What is linked into the table is what the map holds. */
    lemma Housing()
      requires Valid()
      ensures m.home.Keys == m.dict.Values
    {
      ValuesAreHoused(key, hashfn, links.hash, |head.table|, m.home, m.dict);
    }

    /** The caller clears the link of an element of its own, as memory from calloc has it. */
    method Clear(e: Addr)
      requires Valid() && e !in m.dict.Values
      modifies this`links
      ensures Valid() && links == old(links).(next := old(links.next)[e := NULL])
    {
      Housing();
      ThreadedOutside(head.table, links.next, m.chains, m.home, e, NULL);
      links := links.(next := links.next[e := NULL]);
    }

    /** HT_FIND_P_ on a table that has buckets. */
    method FindP(elm: Addr) returns (p: Slot, ghost i: nat)
      requires Valid() && |head.table| > 0
      requires elm in key && elm in links.hash && links.hash[elm] == hashfn(key[elm])
      ensures p.Bucket? ==> p.b < |head.table|
      ensures p.NextOf? ==> p.e in links.next
      ensures var b, k := BucketOf(hashfn(key[elm]), |head.table|), key[elm];
        && i <= |m.chains[b]| && p == SlotAt(m.chains, b, i)
        && Load(head.table, links.next, p) == Link(m.chains[b], i)
        && (k in m.dict ==> i < |m.chains[b]| && m.chains[b][i] == m.dict[k])
        && (k !in m.dict ==> i == |m.chains[b]|)
    {
      var b := BucketOf(links.hash[elm], |head.table|);
      ghost var c := m.chains[b];
      p, i := Bucket(b), 0;
      if key[elm] in m.dict {
        KeyedHome(key, hashfn, links.hash, |head.table|, m.home, m.dict, key[elm]);
        ghost var e := m.dict[key[elm]];
        assert e in m.chains[m.home[e]] && c[0..] == c;
      }
      while true
        invariant i <= |c| && p == SlotAt(m.chains, b, i)
        invariant p.NextOf? ==> p.e in links.next
        invariant Load(head.table, links.next, p) == Link(c, i)
        invariant key[elm] in m.dict ==> m.dict[key[elm]] in c[i..]
        decreases |c| - i
      {
        var e := Load(head.table, links.next, p);
        if e == NULL { break; }
        assert e == c[i];
        if key[e] == key[elm] { return; }
        assert links.next[e] == Link(c, i + 1);
        p, i := NextOf(e), i + 1;
      }
    }

    /** HT_SET_HASH_ on the query element, then HT_FIND_P_ and a load through its result. */
    method Locate(elm: Addr) returns (p: Slot, found: Addr, ghost i: nat)
      requires Valid() && |head.table| > 0 && elm in key
      modifies this`links
      ensures Valid() && links == old(links).(hash := old(links.hash)[elm := hashfn(key[elm])])
      ensures var c, k := m.chains[BucketOf(hashfn(key[elm]), |head.table|)], key[elm];
        && i <= |c| && p == SlotAt(m.chains, BucketOf(hashfn(key[elm]), |head.table|), i)
        && (k in m.dict ==> i < |c| && c[i] == m.dict[k] == found != NULL)
        && (k !in m.dict ==> i == |c| && found == NULL)
    {
      links := links.(hash := links.hash[elm := hashfn(key[elm])]);
      p, i := FindP(elm);
      found := Load(head.table, links.next, p);
      if key[elm] in m.dict {
        ghost var e := m.dict[key[elm]];
        assert e in m.home;
      }
    }

    /** `r = *p; *p = r->next; --n`, the unlinking step that every removal shares. */
    method Unlink(p: Slot, ghost b: nat, ghost i: nat) returns (r: Addr)
      requires Valid() && b < |m.chains| && i < |m.chains[b]| && p == SlotAt(m.chains, b, i)
      modifies this
      ensures Valid() && r == old(m.chains[b][i])
      ensures r in key && m.dict == old(m.dict) - {key[r]} && m.home == old(m.home) - {r}
      ensures m.chains == old(m.chains)[b := Delete(old(m.chains[b]), i)]
      ensures head == old(head).(n := old(head.n) - 1, table := head.table) && |head.table| == old(|head.table|)
      ensures links.hash == old(links.hash) && r in links.next && Thinned(old(head), old(links), old(m), head, links, m)
    {
      SlotLoad(head.table, links.next, m.chains, m.home, b, i);
      r := Load(head.table, links.next, p);
      ThreadDelete(head.table, links.next, m.chains, m.home, b, i);
      KeyedDelete(key, hashfn, links.hash, |head.table|, m.home, m.dict, r);
      StoreInside(m.chains, m.home, links.next, b, i, links.next[r]);
      m := Model(m.chains[b := Delete(m.chains[b], i)], m.home - {r}, m.dict - {key[r]});
      head := head.(n := head.n - 1, table := PutTable(head.table, p, links.next[r]));
      links := links.(next := PutNext(links.next, p, links.next[r]));
    }

    /** The tail of HT_INSERT: bump the counter and push `elm` on the front of its bucket. */
    method Push(elm: Addr)
      requires Valid() && |head.table| > 0
      requires elm in key && elm != NULL && elm !in m.home && key[elm] !in m.dict
      modifies this
      ensures Valid() && m.dict == old(m.dict)[key[elm] := elm]
      ensures head == old(head).(n := old(head.n) + 1, table := head.table)
      ensures SameOutside(old(links.next), links.next, old(m.home.Keys) + {elm})
    {
      KeyedInsert(key, hashfn, links.hash, |head.table|, m.home, m.dict, elm);
      var h := hashfn(key[elm]);
      var b := BucketOf(h, |head.table|);
      ThreadInsert(head.table, links.next, m.chains, m.home, b, 0, elm);
      m := Model(m.chains[b := Insert(m.chains[b], 0, elm)], m.home[elm := b], m.dict[key[elm] := elm]);
      links := Links(links.next[elm := head.table[b]], links.hash[elm := h]);
      head := head.(n := head.n + 1, table := head.table[b := elm]);
    }

    /** HT_REMOVE */
    method Remove(elm: Addr) returns (r: Addr)
      requires Valid() && elm in key
      modifies this
      ensures Valid()
      ensures key[elm] !in old(m.dict) ==> r == NULL && m.dict == old(m.dict)
      ensures key[elm] in old(m.dict) ==> r == old(m.dict)[key[elm]] && m.dict == old(m.dict) - {key[elm]} && r in links.next && links.next[r] == NULL
      ensures head.prime == old(head.prime) && head.limit == old(head.limit) && (old(WithinLoad(head)) ==> WithinLoad(head))
      ensures SameOutside(old(links.next), links.next, old(m.dict.Values))
    {
      Housing();
      if |head.table| == 0 { return NULL; }
      var p, found, i := Locate(elm);
      if found == NULL { return NULL; }
      r := Unlink(p, BucketOf(hashfn(key[elm]), |head.table|), i);
      ThreadedOutside(head.table, links.next, m.chains, m.home, r, NULL);
      links := links.(next := links.next[r := NULL]);
    }

    /** HT_GROW; `fresh_ok` and `realloc_ok` are the outcomes of its two allocations. */
    method Grow(size: nat, fresh_ok: bool, realloc_ok: bool) returns (r: int, overrun: bool)
      requires Valid()
      modifies this
      ensures overrun <==> old(Overruns(head, size))
      ensures Valid() && m.dict == old(m.dict) && m.home.Keys == old(m.home).Keys && links.hash == old(links.hash)
      ensures head.n == old(head.n)
      ensures !overrun ==> r == if old(head.prime) == N_PRIMES - 1 || old(head.limit) > size || fresh_ok || realloc_ok then 0 else -1
      ensures overrun || old(head.prime) == N_PRIMES - 1 || old(head.limit) > size || r == -1 ==> head == old(head)
      ensures !overrun && old(head.prime) < N_PRIMES - 1 && old(head.limit) <= size && r == 0 ==>
        && old(head.prime) < head.prime && size < head.limit
        && forall j :: old(head.prime) < j < head.prime ==> LoadLimit(PRIMES[j]) <= size
      ensures SameOutside(old(links.next), links.next, m.home.Keys)
    {
      if head.prime == N_PRIMES - 1 || head.limit > size { return 0, false; }
      var idx;
      idx, overrun := PickPrime(head.prime, size);
      if overrun { return 0, true; }
      if !fresh_ok && !realloc_ok { return -1, false; }
      Rehash(idx, fresh_ok);
      return 0, false;
    }

    /** The rest of HT_GROW once an allocation has succeeded: move every element into a table of the chosen size. */
    method Rehash(idx: nat, from_fresh: bool)
      requires Valid() && head.prime < idx < N_PRIMES
      modifies this
      ensures Valid() && m.dict == old(m.dict) && m.home.Keys == old(m.home).Keys && links.hash == old(links.hash)
      ensures head == Head(head.table, old(head.n), LoadLimit(PRIMES[idx]), idx)
      ensures SameOutside(old(links.next), links.next, m.home.Keys)
    {
      var len := PRIMES[idx];
      PrimesRise(head.prime, idx);
      var table, next;
      ghost var chains, home;
      if from_fresh {
        table, next, chains, home := RehashFresh(head.table, links.next, links.hash, len, m.chains, m.home);
      } else {
        table, next, chains, home := RehashInPlace(head.table, links.next, links.hash, len, m.chains, m.home);
      }
      Settle(idx, table, next, chains, home);
    }

    /** The assignments that end HT_GROW. */
    method Settle(idx: nat, table: seq<Addr>, next: map<Addr, Addr>, ghost chains: seq<Chain>, ghost home: map<Addr, int>)
      requires Valid() && idx < N_PRIMES && |table| == PRIMES[idx]
      requires Threaded(table, next, chains, home) && Rehashed(m.home, links.hash, |table|, home)
      modifies this
      ensures Valid() && m == old(m).(chains := chains, home := home) && links == old(links).(next := next)
      ensures head == Head(table, old(head.n), LoadLimit(PRIMES[idx]), idx)
    {
      KeyedRehash(key, hashfn, links.hash, |head.table|, m.home, m.dict, |table|, home);
      m := m.(chains := chains, home := home);
      links := links.(next := next);
      head := Head(table, head.n, LoadLimit(PRIMES[idx]), idx);
    }

    /** The growth check that opens HT_INSERT, HT_REPLACE and HT_FIND_OR_INSERT_. */
    method MakeRoom(fresh_ok: bool, realloc_ok: bool) returns (overrun: bool)
      requires Valid()
      modifies this
      ensures Valid() && m.dict == old(m.dict) && m.home.Keys == old(m.home).Keys
      ensures SameOutside(old(links.next), links.next, m.home.Keys)
      ensures overrun <==> !old(CanGrow(head))
      ensures head.n == old(head.n)
      ensures !overrun ==> (head.table == [] <==> old(head.table) == [] && !fresh_ok && !realloc_ok)
      ensures old(WithinLoad(head)) && (fresh_ok || realloc_ok) ==>
        && (head.prime == N_PRIMES - 1 || head.n < head.limit)
        && head.prime == if old(head.n >= head.limit && head.prime < N_PRIMES - 1) then old(head.prime) + 1 else old(head.prime)
    {
      CanGrowExact(head);
      overrun := false;
      if head.table == [] || head.n >= head.limit {
        ghost var prime := head.prime;
        if prime < N_PRIMES - 1 && head.n <= head.limit {
          LimitsRise(prime, prime + 1);
          WithinLoadCanGrow(head);
        }
        var r;
        r, overrun := Grow(head.n + 1, fresh_ok, realloc_ok);
      }
    }

    /** HT_FIND */
    method Find(elm: Addr) returns (r: Addr)
      requires Valid() && elm in key
      modifies this`links
      ensures Valid() && links.next == old(links.next)
      ensures r == if key[elm] in m.dict then m.dict[key[elm]] else NULL
    {
      if |head.table| == 0 { return NULL; }
      var _, e, _ := Locate(elm);
      return e;
    }

    /** HT_INSERT */
    method InsertNew(elm: Addr, fresh_ok: bool, realloc_ok: bool)
      requires Valid() && CanGrow(head)
      requires head.table != [] || fresh_ok || realloc_ok
      requires elm in key && elm != NULL && key[elm] !in m.dict
      modifies this
      ensures Valid() && m.dict == old(m.dict)[key[elm] := elm] && head.n == old(head.n) + 1
      ensures SameOutside(old(links.next), links.next, old(m.dict.Values) + {elm})
      ensures old(WithinLoad(head)) && (fresh_ok || realloc_ok) ==> WithinLoad(head) && old(head.prime) <= head.prime <= old(head.prime) + 1
    {
      Housing();
      var _ := MakeRoom(fresh_ok, realloc_ok);
      Push(elm);
    }

    /** `*p = elm; ++n` at the end of the chain that FIND_P_ walked. */
    method Append(p: Slot, elm: Addr, ghost b: nat)
      requires Valid() && elm in key && elm != NULL && elm !in m.home && key[elm] !in m.dict
      requires elm in links.hash && links.hash[elm] == hashfn(key[elm])
      requires elm in links.next && links.next[elm] == NULL
      requires |head.table| > 0 && b == BucketOf(hashfn(key[elm]), |head.table|)
      requires p == SlotAt(m.chains, b, |m.chains[b]|)
      modifies this
      ensures Valid() && m.dict == old(m.dict)[key[elm] := elm]
      ensures head == old(head).(n := old(head.n) + 1, table := head.table) && |head.table| == old(|head.table|)
      ensures SameOutside(old(links.next), links.next, old(m.home.Keys) + {elm})
    {
      KeyedInsert(key, hashfn, links.hash, |head.table|, m.home, m.dict, elm);
      ThreadInsert(head.table, links.next, m.chains, m.home, b, |m.chains[b]|, elm);
      assert links.next[elm := NULL] == links.next;
      assert links.hash[elm := hashfn(key[elm])] == links.hash;
      m := Model(m.chains[b := Insert(m.chains[b], |m.chains[b]|, elm)], m.home[elm := b], m.dict[key[elm] := elm]);
      head := head.(n := head.n + 1, table := PutTable(head.table, p, elm));
      links := links.(next := PutNext(links.next, p, elm));
    }

    /** HT_FIND_OR_INSERT_ with HT_FOI_INSERT_ as its insertion branch. */
    method FindOrInsert(elm: Addr, newent: Addr, fresh_ok: bool, realloc_ok: bool) returns (found: Addr)
      requires Valid() && CanGrow(head)
      requires head.table != [] || fresh_ok || realloc_ok
      requires elm in key && newent in key && key[newent] == key[elm] && newent != NULL && newent !in m.dict.Values
      modifies this
      ensures Valid() && SameOutside(old(links.next), links.next, old(m.dict.Values) + {newent})
      ensures key[elm] in old(m.dict) ==> found == old(m.dict)[key[elm]] && m.dict == old(m.dict)
      ensures key[elm] !in old(m.dict) ==> found == NULL && m.dict == old(m.dict)[key[elm] := newent]
      ensures old(WithinLoad(head)) && (fresh_ok || realloc_ok) ==> WithinLoad(head) && old(head.prime) <= head.prime <= old(head.prime) + 1
    {
      Housing();
      var _ := MakeRoom(fresh_ok, realloc_ok);
      var p, e, i := Locate(elm);
      if e == NULL {
        FoiInsert(p, elm, newent);
      }
      return e;
    }

    /** HT_FOI_INSERT_ */
    method FoiInsert(p: Slot, elm: Addr, newent: Addr)
      requires Valid() && |head.table| > 0
      requires elm in key && newent in key && key[newent] == key[elm] && newent != NULL && newent !in m.home && key[elm] !in m.dict
      requires elm in links.hash && links.hash[elm] == hashfn(key[elm])
      requires var b := BucketOf(hashfn(key[elm]), |head.table|); p == SlotAt(m.chains, b, |m.chains[b]|)
      modifies this
      ensures Valid() && m.dict == old(m.dict)[key[elm] := newent]
      ensures head == old(head).(n := old(head.n) + 1, table := head.table) && |head.table| == old(|head.table|)
      ensures SameOutside(old(links.next), links.next, old(m.home.Keys) + {newent})
    {
      ThreadedOutside(head.table, links.next, m.chains, m.home, newent, NULL);
      links := Links(links.next[newent := NULL], links.hash[newent := links.hash[elm]]);
      Append(p, newent, BucketOf(hashfn(key[elm]), |head.table|));
    }

    /** HT_REPLACE */
    method Replace(elm: Addr, fresh_ok: bool, realloc_ok: bool) returns (r: Addr)
      requires Valid() && CanGrow(head)
      requires head.table != [] || fresh_ok || realloc_ok
      requires elm in key && elm != NULL && elm !in m.dict.Values && elm in links.next && links.next[elm] == NULL
      modifies this
      ensures Valid() && m.dict == old(m.dict)[key[elm] := elm]
      ensures SameOutside(old(links.next), links.next, old(m.dict.Values) + {elm})
      ensures r == if key[elm] in old(m.dict) then old(m.dict)[key[elm]] else NULL
      ensures r != NULL ==> r in links.next && links.next[r] == NULL
      ensures old(WithinLoad(head)) && (fresh_ok || realloc_ok) ==> WithinLoad(head) && old(head.prime) <= head.prime <= old(head.prime) + 1
    {
      Housing();
      var _ := MakeRoom(fresh_ok, realloc_ok);
      r := ReplaceIn(elm);
    }

    /** HT_REPLACE once there is room. */
    method ReplaceIn(elm: Addr) returns (r: Addr)
      requires Valid() && |head.table| > 0
      requires elm in key && elm != NULL && elm !in m.home && elm in links.next && links.next[elm] == NULL
      modifies this
      ensures Valid() && m.dict == old(m.dict)[key[elm] := elm]
      ensures head == old(head).(n := if r == NULL then old(head.n) + 1 else old(head.n), table := head.table)
      ensures SameOutside(old(links.next), links.next, old(m.home.Keys) + {elm})
      ensures r == if key[elm] in old(m.dict) then old(m.dict)[key[elm]] else NULL
      ensures r != NULL ==> r in links.next && links.next[r] == NULL
    {
      var p, e, i := Locate(elm);
      if e != NULL {
        Substitute(p, elm, e, i);
      } else {
        Append(p, elm, BucketOf(hashfn(key[elm]), |head.table|));
      }
      return e;
    }

    /** `*p = elm; elm->next = r->next; r->next = NULL`: the new element takes the old one's place. */
    method Substitute(p: Slot, elm: Addr, r: Addr, ghost i: nat)
      requires Valid() && |head.table| > 0 && elm in key && elm != NULL && elm !in m.home
      requires elm in links.hash && links.hash[elm] == hashfn(key[elm])
      requires var b := BucketOf(hashfn(key[elm]), |head.table|);
        i < |m.chains[b]| && p == SlotAt(m.chains, b, i) && r == m.chains[b][i] && r in key && key[r] == key[elm]
      modifies this
      ensures Valid() && m.dict == old(m.dict)[key[elm] := elm]
      ensures r in links.next && links.next[r] == NULL
      ensures head == old(head).(table := head.table) && |head.table| == old(|head.table|)
      ensures SameOutside(old(links.next), links.next, old(m.home.Keys) + {elm})
    {
      ghost var b := BucketOf(hashfn(key[elm]), |head.table|);
      ThreadReplace(head.table, links.next, m.chains, m.home, b, i, elm);
      KeyedReplace(key, hashfn, links.hash, |head.table|, m.home, m.dict, r, elm);
      ThreadedOutside(PutTable(head.table, p, elm), PutNext(links.next[elm := links.next[r]], p, elm),
                      m.chains[b := m.chains[b][i := elm]], (m.home - {r})[elm := b], r, NULL);
      m := Model(m.chains[b := m.chains[b][i := elm]], (m.home - {r})[elm := b], m.dict[key[elm] := elm]);
      head := head.(table := PutTable(head.table, p, elm));
      links := links.(next := PutNext(links.next[elm := links.next[r]], p, elm)[r := NULL]);
    }

    /** The bucket scan shared by HT_START, HT_NEXT and HT_NEXT_RMV. */
    method Scan(from: nat) returns (c: Cursor, ghost b: nat)
      requires Valid() && from <= |head.table|
      ensures b == FirstFrom(m.chains, from) && c == CursorAt(m.chains, b, 0)
    {
      var d := from;
      while d < |head.table|
        invariant from <= d <= |head.table|
        invariant FirstFrom(m.chains, from) == FirstFrom(m.chains, d)
      {
        if head.table[d] != NULL {
          return At(Bucket(d)), d;
        }
        SlotLoad(head.table, links.next, m.chains, m.home, d, 0);
        d := d + 1;
      }
      return Done, d;
    }

    /** HT_NEXT, for the cursor at position (b, i). */
    method Next(p: Slot, ghost b: nat, ghost i: nat) returns (c: Cursor, ghost b': nat, ghost i': nat)
      requires Valid() && b < |m.chains| && i < |m.chains[b]| && p == SlotAt(m.chains, b, i)
      ensures (b', i') == NextPos(m.chains, b, i) && c == CursorAt(m.chains, b', i')
    {
      SlotLoad(head.table, links.next, m.chains, m.home, b, i);
      var elm := Load(head.table, links.next, p);
      if links.next[elm] != NULL {
        c, b', i' := At(NextOf(elm)), b, i + 1;
      } else {
        assert BucketOf(links.hash[elm], |head.table|) == b;
        SlotLoad(head.table, links.next, m.chains, m.home, b, i + 1);
        c, b' := Scan(BucketOf(links.hash[elm], |head.table|) + 1);
        i' := 0;
      }
    }

    /** HT_NEXT_RMV, for the cursor at position (b, i). */
    method NextRmv(p: Slot, ghost b: nat, ghost i: nat) returns (c: Cursor, ghost b': nat, ghost i': nat)
      requires Valid() && b < |m.chains| && i < |m.chains[b]| && p == SlotAt(m.chains, b, i)
      modifies this
      ensures Valid() && old(m.chains[b][i]) in key && m.dict == old(m.dict) - {key[old(m.chains[b][i])]}
      ensures m.chains == old(m.chains)[b := Delete(old(m.chains[b]), i)] && |head.table| == old(|head.table|)
      ensures (b', i') == if i < |m.chains[b]| then (b, i) else (FirstFrom(m.chains, b + 1), 0)
      ensures c == CursorAt(m.chains, b', i') && Thinned(old(head), old(links), old(m), head, links, m)
    {
      SlotLoad(head.table, links.next, m.chains, m.home, b, i);
      var elm := Load(head.table, links.next, p);
      var h := links.hash[elm];
      assert BucketOf(h, |head.table|) == b;
      SlotDelete(m.chains, b, i);
      var _ := Unlink(p, b, i);
      c, b', i' := Resume(p, h, b, i);
    }

    /** `if (*p) return p`, else the next non-empty bucket. */
    method Resume(p: Slot, h: int, ghost b: nat, ghost i: nat) returns (c: Cursor, ghost b': nat, ghost i': nat)
      requires Valid() && b < |m.chains| && i <= |m.chains[b]| && p == SlotAt(m.chains, b, i) && BucketOf(h, |head.table|) == b
      ensures (b', i') == if i < |m.chains[b]| then (b, i) else (FirstFrom(m.chains, b + 1), 0)
      ensures c == CursorAt(m.chains, b', i')
    {
      SlotLoad(head.table, links.next, m.chains, m.home, b, i);
      if Load(head.table, links.next, p) != NULL {
        return At(p), b, i;
      }
      c, b' := Scan(BucketOf(h, |head.table|) + 1);
      i' := 0;
    }

    /** HT_FOREACH: the elements in the order HT_START and HT_NEXT produce them. */
    method Enumerate() returns (s: seq<Addr>)
      requires Valid()
      ensures Distinct(s)
      ensures forall e :: e in s <==> e in m.dict.Values
      ensures |s| == head.n
    {
      s := [];
      var c: Cursor;
      ghost var b: nat, i: nat := 0, 0;
      c, b := Scan(0);
      FlattenSkip(m.chains, 0);
      while c.At?
        invariant b <= |m.chains| && (b < |m.chains| ==> i < |m.chains[b]|)
        invariant c == CursorAt(m.chains, b, i)
        invariant s == Flatten(m.chains[..b]) + if b < |m.chains| then m.chains[b][..i] else []
        decreases |m.chains| - b, if b < |m.chains| then |m.chains[b]| - i else 0
      {
        SlotLoad(head.table, links.next, m.chains, m.home, b, i);
        s := s + [Load(head.table, links.next, c.p)];
        FlattenNext(m.chains, b, i);
        c, b, i := Next(c.p, b, i);
      }
      assert s == Flatten(m.chains[..b]);
      FlattenComplete(key, hashfn, links.hash, |head.table|, m.chains, m.home, m.dict);
    }

    /** A pass that drops elements as it goes: HT_NEXT_RMV for those `doomed` selects, HT_NEXT past the others. */
    method Sweep(doomed: Addr -> bool)
      requires Valid()
      modifies this
      ensures Valid() && m.dict == Survivors(old(m.dict), doomed)
      ensures head.prime == old(head.prime) && head.limit == old(head.limit) && (old(WithinLoad(head)) ==> WithinLoad(head))
      ensures SameOutside(old(links.next), links.next, old(m.dict.Values))
    {
      Housing();
      ThinnedRefl(head, links, m);
      var c: Cursor;
      ghost var b: nat, i: nat := 0, 0;
      c, b := Scan(0);
      while c.At?
        invariant InPass(c, b, i, doomed, old(head), old(links), old(m))
        decreases |m.dict|, |m.chains| - b, if b < |m.chains| then |m.chains[b]| - i else 0
      {
        c, b, i := SweepStep(doomed, c.p, b, i, old(head), old(links), old(m));
      }
      PassOver(doomed, old(head), old(links), old(m));
    }

    /** A pass over the table that set out from h0, l0 and m0 has come to (b, i). */
    ghost predicate InPass(c: Cursor, b: nat, i: nat, doomed: Addr -> bool, h0: Head, l0: Links, m0: Model)
      reads this
    {
      (&& Valid() && b <= |m.chains| && (b < |m.chains| ==> i < |m.chains[b]|) && c == CursorAt(m.chains, b, i)
       && Spared(m.chains, doomed, b, i) && Sifted(m0.dict, m.dict, doomed) && Thinned(h0, l0, m0, head, links, m)) == true
    }

    lemma PassOver(doomed: Addr -> bool, h0: Head, l0: Links, m0: Model)
      requires Valid() && Spared(m.chains, doomed, |m.chains|, 0) && Sifted(m0.dict, m.dict, doomed) && Thinned(h0, l0, m0, head, links, m)
      ensures m.dict == Survivors(m0.dict, doomed)
      ensures head.prime == h0.prime && head.limit == h0.limit && (WithinLoad(h0) ==> WithinLoad(head))
      ensures SameOutside(l0.next, links.next, m0.home.Keys)
    {
      ThinnedLoad(h0, l0, m0, head, links, m);
      SiftedAll(key, hashfn, links.hash, |head.table|, m.chains, m.home, m0.dict, m.dict, doomed);
    }

    /** One turn of the pass. */
    method SweepStep(doomed: Addr -> bool, p: Slot, ghost b: nat, ghost i: nat, ghost h0: Head, ghost l0: Links, ghost m0: Model)
      returns (c: Cursor, ghost b': nat, ghost i': nat)
      requires InPass(At(p), b, i, doomed, h0, l0, m0)
      modifies this
      ensures InPass(c, b', i', doomed, h0, l0, m0)
      ensures |m.dict| < |old(m.dict)| ||
        (m == old(m) && (b < b' || (b == b' && i < i')))
    {
      SlotLoad(head.table, links.next, m.chains, m.home, b, i);
      var elm := Load(head.table, links.next, p);
      if doomed(elm) {
        ghost var h1, l1, m1 := head, links, m;
        c, b', i' := SweepDrop(doomed, p, b, i);
        SiftedTrans(m0.dict, m1.dict, m.dict, doomed);
        ThinnedTrans(h0, l0, m0, h1, l1, m1, head, links, m);
      } else {
        SparedNext(m.chains, doomed, b, i);
        c, b', i' := Next(p, b, i);
      }
    }

    method SweepDrop(doomed: Addr -> bool, p: Slot, ghost b: nat, ghost i: nat) returns (c: Cursor, ghost b': nat, ghost i': nat)
      requires Valid() && b < |m.chains| && i < |m.chains[b]| && p == SlotAt(m.chains, b, i)
      requires Spared(m.chains, doomed, b, i) && doomed(m.chains[b][i])
      modifies this
      ensures Valid() && b' <= |m.chains| && (b' < |m.chains| ==> i' < |m.chains[b']|)
      ensures c == CursorAt(m.chains, b', i')
      ensures Spared(m.chains, doomed, b', i') && Sifted(old(m.dict), m.dict, doomed)
      ensures |m.dict| < |old(m.dict)| && Thinned(old(head), old(links), old(m), head, links, m)
    {
      ghost var elm := m.chains[b][i];
      assert elm in m.home;
      SparedDelete(m.chains, doomed, b, i);
      SiftedDrop(m.dict, key[elm], doomed);
      c, b', i' := NextRmv(p, b, i);
    }

    /** HT_FOREACH_FN: `fn` is called on each element in turn and its answer decides whether the element goes. */
    method ForeachFn(fn: Addr -> bool)
      requires Valid()
      modifies this
      ensures Valid() && m.dict == Survivors(old(m.dict), fn)
      ensures head.prime == old(head.prime) && head.limit == old(head.limit) && (old(WithinLoad(head)) ==> WithinLoad(head))
      ensures SameOutside(old(links.next), links.next, old(m.dict.Values))
    {
      Housing();
      ThinnedRefl(head, links, m);
      var idx := 0;
      while idx < |head.table|
        invariant Valid() && idx <= |head.table| && Thinned(old(head), old(links), old(m), head, links, m)
        invariant Spared(m.chains, fn, idx, 0) && Sifted(old(m.dict), m.dict, fn)
        decreases |head.table| - idx
      {
        ghost var mid, h1, l1, m1 := m.dict, head, links, m;
        ForeachBucket(fn, idx);
        SiftedTrans(old(m.dict), mid, m.dict, fn);
        ThinnedTrans(old(head), old(links), old(m), h1, l1, m1, head, links, m);
        idx := idx + 1;
      }
      PassOver(fn, old(head), old(links), old(m));
    }

    method ForeachBucket(fn: Addr -> bool, idx: nat)
      requires Valid() && idx < |head.table| && Spared(m.chains, fn, idx, 0)
      modifies this
      ensures Valid() && |head.table| == old(|head.table|)
      ensures Spared(m.chains, fn, idx + 1, 0) && Sifted(old(m.dict), m.dict, fn)
      ensures Thinned(old(head), old(links), old(m), head, links, m)
    {
      ThinnedRefl(head, links, m);
      var p, done := Bucket(idx), false;
      ghost var i: nat := 0;
      while !done
        invariant Valid() && |head.table| == old(|head.table|)
        invariant i <= |m.chains[idx]| && p == SlotAt(m.chains, idx, i)
        invariant Spared(m.chains, fn, idx, i) && Sifted(old(m.dict), m.dict, fn)
        invariant done ==> i == |m.chains[idx]|
        invariant Thinned(old(head), old(links), old(m), head, links, m)
        decreases |m.chains[idx]| - i, !done
      {
        ghost var mid, h1, l1, m1 := m.dict, head, links, m;
        p, done, i := ForeachStep(fn, p, idx, i);
        SiftedTrans(old(m.dict), mid, m.dict, fn);
        ThinnedTrans(old(head), old(links), old(m), h1, l1, m1, head, links, m);
      }
    }

    method ForeachStep(fn: Addr -> bool, p: Slot, ghost b: nat, ghost i: nat) returns (p': Slot, done: bool, ghost i': nat)
      requires Valid() && b < |m.chains| && i <= |m.chains[b]| && p == SlotAt(m.chains, b, i)
      requires Spared(m.chains, fn, b, i)
      modifies this
      ensures Valid() && |head.table| == old(|head.table|)
      ensures i' <= |m.chains[b]| && p' == SlotAt(m.chains, b, i')
      ensures Spared(m.chains, fn, b, i') && Sifted(old(m.dict), m.dict, fn)
      ensures if done then m == old(m) && i' == i == |m.chains[b]| else |m.chains[b]| - i' < old(|m.chains[b]|) - i
      ensures Thinned(old(head), old(links), old(m), head, links, m)
    {
      ThinnedRefl(head, links, m);
      SlotLoad(head.table, links.next, m.chains, m.home, b, i);
      p', done, i' := p, false, i;
      var elm := Load(head.table, links.next, p);
      if elm == NULL { done := true; return; }
      if fn(elm) {
        Drop(fn, p, b, i);
      } else {
        p', i' := NextOf(elm), i + 1;
      }
    }

    /** The removal branch of HT_FOREACH_FN. */
    method Drop(fn: Addr -> bool, p: Slot, ghost b: nat, ghost i: nat)
      requires Valid() && b < |m.chains| && i < |m.chains[b]| && p == SlotAt(m.chains, b, i)
      requires Spared(m.chains, fn, b, i) && fn(m.chains[b][i])
      modifies this
      ensures Valid() && |head.table| == old(|head.table|) && |m.chains[b]| == old(|m.chains[b]|) - 1
      ensures p == SlotAt(m.chains, b, i) && Spared(m.chains, fn, b, i) && Sifted(old(m.dict), m.dict, fn)
      ensures Thinned(old(head), old(links), old(m), head, links, m)
    {
      ghost var elm := m.chains[b][i];
      assert elm in m.home;
      SparedDelete(m.chains, fn, b, i);
      SlotDelete(m.chains, b, i);
      SiftedDrop(m.dict, key[elm], fn);
      var _ := Unlink(p, b, i);
    }

    /** The inner loop of HT_REP_IS_BAD_. */
    method CheckBucket(i: nat) returns (bad: int, count: nat)
      requires Valid() && i < |head.table|
      ensures bad == 0 && count == |m.chains[i]|
    {
      var elm := head.table[i];
      bad, count := 0, 0;
      while elm != NULL
        invariant bad == 0 && count <= |m.chains[i]| && elm == Link(m.chains[i], count)
        decreases |m.chains[i]| - count
      {
        SlotLoad(head.table, links.next, m.chains, m.home, i, count);
        if links.hash[elm] != hashfn(key[elm]) { return 1000 + i, count; }
        if BucketOf(links.hash[elm], |head.table|) != i { return 10000 + i, count; }
        count, elm := count + 1, links.next[elm];
      }
      SlotLoad(head.table, links.next, m.chains, m.home, i, count);
    }

    /** HT_REP_IS_BAD_ */
    method RepIsBad() returns (r: int)
      requires Valid()
      ensures r == if head.table == [] || head.n <= head.limit then 0 else 3
      ensures WithinLoad(head) ==> (r == 0 <==> FitsLastPrime(m.dict))
    {
      LoadFits(head, m.dict);
      if |head.table| == 0 {
        if head.n == 0 && head.limit == 0 && head.prime == -1 { return 0; }
        return 1;
      }
      if head.prime < 0 || head.limit == 0 { return 2; }
      if head.n > head.limit { return 3; }
      if |head.table| != PRIMES[head.prime] { return 4; }
      if head.limit != LoadLimit(|head.table|) { return 5; }
      var n, i := 0, 0;
      while i < |head.table|
        invariant i <= |head.table| && n == |Flatten(m.chains[..i])|
      {
        var bad, count := CheckBucket(i);
        if bad != 0 { return bad; }
        assert m.chains[..i + 1][..i] == m.chains[..i];
        n, i := n + count, i + 1;
      }
      FlattenComplete(key, hashfn, links.hash, |head.table|, m.chains, m.home, m.dict);
      if n != head.n { return 6; }
      return 0;
    }

    /** An insertion of a client, who clears the link of its element before HT_REPLACE; calloc does that for a new one. */
    method Enter(c: Call)
      requires Valid() && WithinLoad(head) && Legal(key, m.dict, c) && (c.Inserting? || c.Replacing? || c.Finding?)
      modifies this
      ensures Valid() && WithinLoad(head) && m.dict == Called(key, old(m.dict), c)
    {
      WithinLoadCanGrow(head);
      match c {
        case Inserting(elm, fresh_ok, realloc_ok) => InsertNew(elm, fresh_ok, realloc_ok);
        case Replacing(elm, fresh_ok, realloc_ok) =>
          Clear(elm);
          var _ := Replace(elm, fresh_ok, realloc_ok);
        case Finding(elm, newent, fresh_ok, realloc_ok) => var _ := FindOrInsert(elm, newent, fresh_ok, realloc_ok);
      }
    }

    /** One call of a client, then HT_REP_IS_BAD_. */
    method Do(c: Call) returns (bad: int)
      requires Valid() && WithinLoad(head) && Legal(key, m.dict, c)
      modifies this
      ensures Valid() && WithinLoad(head) && m.dict == Called(key, old(m.dict), c)
      ensures bad == 0 <==> FitsLastPrime(m.dict)
    {
      match c {
        case Removing(elm) => var _ := Remove(elm);
        case Sweeping(doomed) => Sweep(doomed);
        case Filtering(doomed) => ForeachFn(doomed);
        case _ => Enter(c);
      }
      bad := RepIsBad();
    }

    /**
      Any run of calls from a table within its load, such as an empty one: the table stays the map the calls describe,
      and HT_REP_IS_BAD_ complains exactly while there are more elements than the last prime's load limit.
     */
    method Play(calls: seq<Call>, ghost states: seq<map<Key, Addr>>) returns (reports: seq<int>)
      requires Valid() && WithinLoad(head) && Run(key, calls, states) && states[0] == m.dict
      modifies this
      ensures Valid() && WithinLoad(head) && m.dict == states[|calls|]
      ensures Reported(reports, states)
    {
      reports := [];
      for n := 0 to |calls|
        invariant Valid() && WithinLoad(head) && m.dict == states[n] && Reported(reports, states[..n + 1])
      {
        var bad := Do(calls[n]);
        ReportedNext(reports, states, n, bad);
        reports := reports + [bad];
      }
      assert states[..|calls| + 1] == states;
    }
  }
}
