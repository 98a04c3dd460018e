/**
  The word bitmap of a chunk page (`u_long bits[]` in struct pginfo): 64 positions
  a word, least significant first, with a set bit for each free chunk.
 */
module Bitmap {

  const BITS: int := 64

  /** A u_long, bit by bit. */
  type Word = seq<bool>

  ghost predicate Words(bits: seq<Word>) {
    forall i {:trigger bits[i]} :: 0 <= i < |bits| ==> |bits[i]| == BITS
  }

  function BitAt(bits: seq<Word>, k: int): bool {
    0 <= k && k / BITS < |bits| && k % BITS < |bits[k / BITS]| && bits[k / BITS][k % BITS]
  }

  /** Writing position `k`: `|=`, `&= ~` and `^=` with the mask 1UL << (k % MALLOC_BITS). */
  function PutBit(bits: seq<Word>, k: int, b: bool): (r: seq<Word>)
    requires Words(bits) && 0 <= k < BITS * |bits|
    ensures Words(r) && |r| == |bits|
    ensures forall j {:trigger BitAt(r, j)} :: BitAt(r, j) == if j == k then b else BitAt(bits, j)
  {
    bits[k / BITS := bits[k / BITS][k % BITS := b]]
  }

  /** How many of the first `n` positions are set. */
  function Count(bits: seq<Word>, n: nat): nat {
    if n == 0 then 0 else Count(bits, n - 1) + if BitAt(bits, n - 1) then 1 else 0
  }

  lemma {:induction false} CountPut(bits: seq<Word>, bits': seq<Word>, k: int, b: bool, n: nat)
    requires 0 <= k && BitAt(bits, k) != b
    requires forall j {:trigger BitAt(bits', j)} :: BitAt(bits', j) == if j == k then b else BitAt(bits, j)
    ensures Count(bits', n) == Count(bits, n) + if k < n then (if b then 1 else -1) else 0
  {
    if n > 0 {
      CountPut(bits, bits', k, b, n - 1);
    }
  }

  lemma {:induction false} CountZero(bits: seq<Word>, n: nat)
    requires forall j :: 0 <= j < n ==> !BitAt(bits, j)
    ensures Count(bits, n) == 0
  {
    if n > 0 {
      CountZero(bits, n - 1);
    }
  }

  lemma {:induction false} CountAll(bits: seq<Word>, n: nat)
    requires forall j :: 0 <= j < n ==> BitAt(bits, j)
    ensures Count(bits, n) == n
  {
    if n > 0 {
      CountAll(bits, n - 1);
    }
  }

  lemma {:induction false} CountBound(bits: seq<Word>, n: nat)
    ensures Count(bits, n) <= n
  {
    if n > 0 {
      CountBound(bits, n - 1);
    }
  }

  /** When fewer than `n` bits are counted, one of them is clear. */
  lemma CountBelow(bits: seq<Word>, n: nat, k: nat)
    requires k < n && !BitAt(bits, k)
    ensures Count(bits, n) < n
  {
    CountBound(bits, n - 1);
    if k < n - 1 {
      CountBelow(bits, n - 1, k);
    }
  }

  function IsZero(w: Word): bool {
    forall j :: 0 <= j < |w| ==> !w[j]
  }

  /** A positive count needs a word that is not zero. */
  lemma SomeWord(bits: seq<Word>, n: nat) returns (k: nat)
    requires Words(bits) && n <= BITS * |bits| && Count(bits, n) > 0
    ensures k < n && BitAt(bits, k) && !IsZero(bits[k / BITS])
  {
    if forall j :: 0 <= j < n ==> !BitAt(bits, j) {
      CountZero(bits, n);
    }
    k :| 0 <= k < n && BitAt(bits, k);
    assert bits[k / BITS][k % BITS];
  }

  /**
    The search of malloc_bytes: the first word that is not empty, then its lowest set bit.
    Nothing is asked of positions `n` and up, which may hold junk.
   */
  method FindFree(bits: seq<Word>, n: nat) returns (k: nat)
    requires Words(bits) && n <= BITS * |bits| && Count(bits, n) > 0
    ensures k < n && BitAt(bits, k)
    ensures forall j :: 0 <= j < k ==> !BitAt(bits, j)
  {
    ghost var some := SomeWord(bits, n);
    var lp := 0;
    while IsZero(bits[lp])
      invariant 0 <= lp <= some / BITS
      invariant forall i, j {:trigger bits[i][j]} :: 0 <= i < lp && 0 <= j < BITS ==> !bits[i][j]
      decreases some / BITS - lp
    {
      lp := lp + 1;
    }
    var u := 0;
    while !bits[lp][u]
      invariant 0 <= u < BITS && exists j :: u <= j < BITS && bits[lp][j]
      invariant forall j :: 0 <= j < u ==> !bits[lp][j]
      decreases BITS - u
    {
      u := u + 1;
    }
    k := lp * BITS + u;
    assert k / BITS == lp && k % BITS == u;
    assert forall j :: 0 <= j < k ==> j / BITS < lp || (j / BITS == lp && j % BITS < u);
    assert some >= k;
  }
}
