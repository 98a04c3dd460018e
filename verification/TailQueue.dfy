/**
  The BSD tail queues of ext/tor_queue.h in explicit memory.

  A `type **` is the address of the head's tqh_first or of some element's tqe_next.
  Both are followed by another such pointer, tqh_last or tqe_prev; the LAST and PREV
  macros read it by casting the one structure to the other.
 */
module TailQueue {

  import opened Chains

  /** What a tqh_last or tqe_prev can point at. */
  datatype Place = First | NextField(e: Addr)

  /** The link fields of an element. */
  datatype Entry = Entry(next: Addr, prev: Place)

  /** A queue's head, and the link fields of every element there is. */
  datatype Tailq = Tailq(first: Addr, last: Place, nodes: map<Addr, Entry>)

  // ----- what a queue stands for -----

  /** The place that leads to position `i`. */
  function PlaceAt(s: seq<Addr>, i: int): Place {
    if 0 < i <= |s| then NextField(s[i - 1]) else First
  }

  ghost predicate Distinct(s: seq<Addr>) {
    forall i, j {:trigger s[i], s[j]} :: 0 <= i < j < |s| ==> s[i] != s[j]
  }

  /** Each element's tqe_prev names the place that points at it, and the last place holds null. */
  ghost predicate QueueParts(q: Tailq, s: seq<Addr>) {
    && q.first == Link(s, 0) && q.last == PlaceAt(s, |s|) && Distinct(s)
    && (forall i {:trigger q.nodes[s[i]]} {:trigger s[i] in q.nodes} :: 0 <= i < |s| ==>
          && s[i] != NULL && s[i] in q.nodes
          && q.nodes[s[i]].next == Link(s, i + 1) && q.nodes[s[i]].prev == PlaceAt(s, i))
  }

  ghost predicate Queue(q: Tailq, s: seq<Addr>) {
    QueueParts(q, s) == true
  }

  lemma At(q: Tailq, s: seq<Addr>, i: nat)
    requires Queue(q, s) && i < |s|
    ensures s[i] != NULL && s[i] in q.nodes && q.nodes[s[i]] == Entry(Link(s, i + 1), PlaceAt(s, i))
  {
    var e := s[i];
    assert e in q.nodes;
  }

  /** The element at position `i` and its links are right. */
  ghost predicate Right(q: Tailq, s: seq<Addr>, i: nat) {
    (i < |s| && s[i] != NULL && s[i] in q.nodes && q.nodes[s[i]] == Entry(Link(s, i + 1), PlaceAt(s, i))) == true
  }

  lemma QueueOf(q: Tailq, s: seq<Addr>)
    requires q.first == Link(s, 0) && q.last == PlaceAt(s, |s|) && Distinct(s)
    requires forall i: nat {:trigger Right(q, s, i)} :: i < |s| ==> Right(q, s, i)
    ensures Queue(q, s)
  {
    forall i | 0 <= i < |s|
      ensures s[i] != NULL && s[i] in q.nodes && q.nodes[s[i]].next == Link(s, i + 1) && q.nodes[s[i]].prev == PlaceAt(s, i)
    {
      assert Right(q, s, i);
    }
  }

  // ----- reading and writing through places -----

  predicate IsPlace(q: Tailq, p: Place) { p.NextField? ==> p.e in q.nodes }

  /** `*p` */
  function Deref(q: Tailq, p: Place): Addr
    requires IsPlace(q, p)
  {
    if p.First? then q.first else q.nodes[p.e].next
  }

  /** `*p = v` */
  function Assign(q: Tailq, p: Place, v: Addr): Tailq
    requires IsPlace(q, p)
  {
    if p.First? then q.(first := v) else q.(nodes := q.nodes[p.e := q.nodes[p.e].(next := v)])
  }

  /** `((struct headname *)p)->tqh_last`: the pointer beside the one that `p` is the address of. */
  function Beside(q: Tailq, p: Place): Place
    requires IsPlace(q, p)
  {
    if p.First? then q.last else q.nodes[p.e].prev
  }

  function SetNext(q: Tailq, e: Addr, v: Addr): Tailq
    requires e in q.nodes
  {
    q.(nodes := q.nodes[e := q.nodes[e].(next := v)])
  }

  function SetPrev(q: Tailq, e: Addr, p: Place): Tailq
    requires e in q.nodes
  {
    q.(nodes := q.nodes[e := q.nodes[e].(prev := p)])
  }

  lemma Places(q: Tailq, s: seq<Addr>, i: nat)
    requires Queue(q, s) && i <= |s|
    ensures IsPlace(q, PlaceAt(s, i)) && Deref(q, PlaceAt(s, i)) == Link(s, i)
    ensures Beside(q, PlaceAt(s, i)) == if i == 0 then PlaceAt(s, |s|) else PlaceAt(s, i - 1)
  {
    if i > 0 { At(q, s, i - 1); }
  }

  /** Elements that are neither in `s` nor `e` itself, such as those of other queues, keep their links. */
  ghost predicate OthersKept(q: Tailq, q': Tailq, s: seq<Addr>, e: Addr) {
    q'.nodes.Keys == q.nodes.Keys && forall x {:trigger q'.nodes[x]} :: x in q.nodes && x !in s && x != e ==> q'.nodes[x] == q.nodes[x]
  }

  // ----- surgery -----

  /** What is behind position `i` now hangs from `p`: the next element's tqe_prev, or tqh_last. */
  function Behind(q: Tailq, next: Addr, p: Place): Tailq
    requires next != NULL ==> next in q.nodes
  {
    if next != NULL then SetPrev(q, next, p) else q.(last := p)
  }

  /** `e` linked in at position `i`. */
  function Linked(q: Tailq, s: seq<Addr>, i: nat, e: Addr): Tailq
    requires Queue(q, s) && i <= |s| && e in q.nodes && e !in s
  {
    Places(q, s, i);
    assert i < |s| ==> s[i] in q.nodes by { if i < |s| { At(q, s, i); } }
    var q1 := q.(nodes := q.nodes[e := Entry(Link(s, i), PlaceAt(s, i))]);
    Assign(Behind(q1, Link(s, i), NextField(e)), PlaceAt(s, i), e)
  }

  /** The memory after `e` was linked in at position `i`. */
  ghost predicate NodesLinked(q: Tailq, s: seq<Addr>, i: int, e: Addr, q': Tailq) {
    && 0 <= i <= |s|
    && q'.first == (if i == 0 then e else q.first) && q'.last == (if i == |s| then NextField(e) else q.last)
    && q'.nodes.Keys == q.nodes.Keys && e in q'.nodes && q'.nodes[e] == Entry(Link(s, i), PlaceAt(s, i))
    && (forall x {:trigger q'.nodes[x]} :: x in q.nodes && x != e ==>
          q'.nodes[x] == Entry(if i > 0 && x == s[i - 1] then e else q.nodes[x].next, if i < |s| && x == s[i] then NextField(e) else q.nodes[x].prev))
  }

  lemma LinkedNodes(q: Tailq, s: seq<Addr>, i: nat, e: Addr)
    requires Queue(q, s) && i <= |s| && e in q.nodes && e !in s
    ensures NodesLinked(q, s, i, e, Linked(q, s, i, e))
  {
    Places(q, s, i);
    if i < |s| { At(q, s, i); }
    if i > 0 { At(q, s, i - 1); }
  }

  /** The element now at position `j`, where `j0` is where it was. */
  lemma LinkedAt(q: Tailq, s: seq<Addr>, i: nat, e: Addr, q': Tailq, j: nat, j0: nat)
    requires Queue(q, s) && NodesLinked(q, s, i, e, q') && e !in s && j0 < |s| && j == (if j0 < i then j0 else j0 + 1)
    ensures s[j0] != NULL && s[j0] in q'.nodes
    ensures q'.nodes[s[j0]] == Entry(if j0 + 1 == i then e else Link(s, j0 + 1), if j0 == i then NextField(e) else PlaceAt(s, j0))
  {
    At(q, s, j0);
    var x := s[j0];
    assert x != e;
    assert i > 0 && j0 != i - 1 ==> x != s[i - 1];
    assert i < |s| && j0 != i ==> x != s[i];
    var n := q'.nodes[x];
  }

  /** What the new sequence has around position `j`. */
  lemma InsertAround(s: seq<Addr>, i: nat, e: Addr, j: nat)
    requires i <= |s| && j <= |s|
    ensures var s' := Insert(s, i, e);
      && s'[j] == (if j < i then s[j] else if j == i then e else s[j - 1])
      && Link(s', j + 1) == (if j + 1 == i then e else if j < i then Link(s, j + 1) else Link(s, j))
      && PlaceAt(s', j) == (if j <= i then PlaceAt(s, j) else if j == i + 1 then NextField(e) else PlaceAt(s, j - 1))
  {
  }

  lemma LinkedNow(q: Tailq, s: seq<Addr>, i: nat, e: Addr, q': Tailq, j: nat)
    requires Queue(q, s) && NodesLinked(q, s, i, e, q') && e !in s && e != NULL && j <= |s|
    ensures Right(q', Insert(s, i, e), j)
  {
    InsertAround(s, i, e, j);
    if j < i {
      LinkedAt(q, s, i, e, q', j, j);
    } else if j > i {
      LinkedAt(q, s, i, e, q', j, j - 1);
    }
  }

  lemma LinkedEnds(s: seq<Addr>, i: nat, e: Addr)
    requires i <= |s|
    ensures Link(Insert(s, i, e), 0) == if i == 0 then e else Link(s, 0)
    ensures PlaceAt(Insert(s, i, e), |s| + 1) == if i == |s| then NextField(e) else PlaceAt(s, |s|)
  {
  }

  lemma QueueLinked(q: Tailq, s: seq<Addr>, i: nat, e: Addr, q': Tailq)
    requires Queue(q, s) && NodesLinked(q, s, i, e, q') && e !in s && e != NULL
    ensures Queue(q', Insert(s, i, e))
  {
    var s' := Insert(s, i, e);
    forall j: nat | j < |s'| ensures Right(q', s', j) {
      LinkedNow(q, s, i, e, q', j);
    }
    InsertDistinct(s, i, e);
    LinkedEnds(s, i, e);
    QueueOf(q', s');
  }

  lemma LinkedQueue(q: Tailq, s: seq<Addr>, i: nat, e: Addr)
    requires Queue(q, s) && i <= |s| && e in q.nodes && e !in s && e != NULL
    ensures Queue(Linked(q, s, i, e), Insert(s, i, e)) && OthersKept(q, Linked(q, s, i, e), s, e)
  {
    LinkedNodes(q, s, i, e);
    QueueLinked(q, s, i, e, Linked(q, s, i, e));
  }

  lemma InsertDistinct(s: seq<Addr>, i: nat, e: Addr)
    requires Distinct(s) && i <= |s| && e !in s
    ensures Distinct(Insert(s, i, e))
  {
    var s' := Insert(s, i, e);
    forall j, k | 0 <= j < k < |s'| ensures s'[j] != s'[k] {
      assert j != i ==> s'[j] == s[if j < i then j else j - 1];
      assert k != i ==> s'[k] == s[if k < i then k else k - 1];
    }
  }

  /** The element at position `i` unlinked. */
  function Unlinked(q: Tailq, s: seq<Addr>, i: nat): Tailq
    requires Queue(q, s) && i < |s|
  {
    At(q, s, i);
    Places(q, s, i);
    assert i + 1 < |s| ==> s[i + 1] in q.nodes by { if i + 1 < |s| { At(q, s, i + 1); } }
    Assign(Behind(q, Link(s, i + 1), PlaceAt(s, i)), PlaceAt(s, i), Link(s, i + 1))
  }

  /** The memory after the element at position `i` was unlinked. */
  ghost predicate NodesUnlinked(q: Tailq, s: seq<Addr>, i: int, q': Tailq) {
    && 0 <= i < |s|
    && q'.first == (if i == 0 then Link(s, 1) else q.first) && q'.last == (if i + 1 == |s| then PlaceAt(s, i) else q.last)
    && q'.nodes.Keys == q.nodes.Keys
    && (forall x {:trigger q'.nodes[x]} :: x in q.nodes ==>
          q'.nodes[x] == Entry(if i > 0 && x == s[i - 1] then Link(s, i + 1) else q.nodes[x].next,
                               if i + 1 < |s| && x == s[i + 1] then PlaceAt(s, i) else q.nodes[x].prev))
  }

  lemma UnlinkedNodes(q: Tailq, s: seq<Addr>, i: nat)
    requires Queue(q, s) && i < |s|
    ensures NodesUnlinked(q, s, i, Unlinked(q, s, i))
  {
    At(q, s, i);
    Places(q, s, i);
    if i + 1 < |s| { At(q, s, i + 1); }
    if i > 0 { At(q, s, i - 1); }
  }

  lemma UnlinkedAt(q: Tailq, s: seq<Addr>, i: nat, q': Tailq, j0: nat)
    requires Queue(q, s) && NodesUnlinked(q, s, i, q') && j0 < |s| && j0 != i
    ensures s[j0] != NULL && s[j0] in q'.nodes
    ensures q'.nodes[s[j0]] == Entry(if j0 + 1 == i then Link(s, i + 1) else Link(s, j0 + 1), if j0 == i + 1 then PlaceAt(s, i) else PlaceAt(s, j0))
  {
    At(q, s, j0);
    var x := s[j0];
    assert i > 0 && j0 != i - 1 ==> x != s[i - 1];
    assert i + 1 < |s| && j0 != i + 1 ==> x != s[i + 1];
    var n := q'.nodes[x];
  }

  lemma DeleteAround(s: seq<Addr>, i: nat, j: nat)
    requires i < |s| && j + 1 < |s|
    ensures var s' := Delete(s, i);
      && s'[j] == (if j < i then s[j] else s[j + 1])
      && Link(s', j + 1) == (if j + 1 < i then Link(s, j + 1) else Link(s, j + 2))
      && PlaceAt(s', j) == (if j <= i then PlaceAt(s, j) else PlaceAt(s, j + 1))
  {
  }

  lemma UnlinkedNow(q: Tailq, s: seq<Addr>, i: nat, q': Tailq, j: nat)
    requires Queue(q, s) && NodesUnlinked(q, s, i, q') && j + 1 < |s|
    ensures Right(q', Delete(s, i), j)
  {
    DeleteAround(s, i, j);
    UnlinkedAt(q, s, i, q', if j < i then j else j + 1);
  }

  lemma DeleteDistinct(s: seq<Addr>, i: nat)
    requires Distinct(s) && i < |s|
    ensures Distinct(Delete(s, i))
  {
    assert forall j :: 0 <= j < |s| - 1 ==> Delete(s, i)[j] == s[if j < i then j else j + 1];
  }

  lemma UnlinkedEnds(s: seq<Addr>, i: nat)
    requires i < |s|
    ensures Link(Delete(s, i), 0) == if i == 0 then Link(s, 1) else Link(s, 0)
    ensures PlaceAt(Delete(s, i), |s| - 1) == if i + 1 == |s| then PlaceAt(s, i) else PlaceAt(s, |s|)
  {
  }

  lemma QueueUnlinked(q: Tailq, s: seq<Addr>, i: nat, q': Tailq)
    requires Queue(q, s) && NodesUnlinked(q, s, i, q')
    ensures Queue(q', Delete(s, i))
  {
    var s' := Delete(s, i);
    forall j: nat | j < |s'| ensures Right(q', s', j) {
      UnlinkedNow(q, s, i, q', j);
    }
    DeleteDistinct(s, i);
    UnlinkedEnds(s, i);
    QueueOf(q', s');
  }

  lemma UnlinkedQueue(q: Tailq, s: seq<Addr>, i: nat)
    requires Queue(q, s) && i < |s|
    ensures Queue(Unlinked(q, s, i), Delete(s, i)) && OthersKept(q, Unlinked(q, s, i), s, s[i])
  {
    UnlinkedNodes(q, s, i);
    QueueUnlinked(q, s, i, Unlinked(q, s, i));
  }

  /** `e2` takes the place of the element at position `i`. */
  ghost predicate NodesReplaced(q: Tailq, s: seq<Addr>, i: int, e2: Addr, q': Tailq) {
    && 0 <= i < |s|
    && q'.first == (if i == 0 then e2 else q.first) && q'.last == (if i + 1 == |s| then NextField(e2) else q.last)
    && q'.nodes.Keys == q.nodes.Keys && e2 in q'.nodes && q'.nodes[e2] == Entry(Link(s, i + 1), PlaceAt(s, i))
    && (forall x {:trigger q'.nodes[x]} :: x in q.nodes && x != e2 ==>
          q'.nodes[x] == Entry(if i > 0 && x == s[i - 1] then e2 else q.nodes[x].next, if i + 1 < |s| && x == s[i + 1] then NextField(e2) else q.nodes[x].prev))
  }

  lemma QueueReplaced(q: Tailq, s: seq<Addr>, i: nat, e2: Addr, q': Tailq)
    requires Queue(q, s) && NodesReplaced(q, s, i, e2, q') && e2 !in s && e2 != NULL
    ensures Queue(q', s[i := e2])
  {
    var s' := s[i := e2];
    forall j: nat | j < |s'| ensures Right(q', s', j) {
      ReplacedNow(q, s, i, e2, q', j);
    }
    QueueOf(q', s');
  }

  lemma ReplacedNow(q: Tailq, s: seq<Addr>, i: nat, e2: Addr, q': Tailq, j: nat)
    requires Queue(q, s) && NodesReplaced(q, s, i, e2, q') && e2 !in s && e2 != NULL && j < |s|
    ensures Right(q', s[i := e2], j)
  {
    if j != i {
      At(q, s, j);
      var x := s[j];
      assert x != e2;
      assert i > 0 && j != i - 1 ==> x != s[i - 1];
      assert i + 1 < |s| && j != i + 1 ==> x != s[i + 1];
      var n := q'.nodes[x];
    }
  }

  lemma ReplacedOthers(q: Tailq, s: seq<Addr>, i: nat, e2: Addr, q': Tailq)
    requires NodesReplaced(q, s, i, e2, q')
    ensures OthersKept(q, q', s, e2)
  {
  }

  function Reversed(s: seq<Addr>): seq<Addr> {
    seq(|s|, j requires 0 <= j < |s| => s[|s| - 1 - j])
  }

  // ----- the queue -----

  /** A head together with the link fields of its elements; `items` is what it holds. */
  class Head {
    var q: Tailq
    ghost var items: seq<Addr>

    ghost predicate Valid()
      reads this
    {
      Queue(q, items)
    }

    /** TAILQ_INIT */
    constructor (nodes: map<Addr, Entry>)
      ensures Valid() && items == [] && q.nodes == nodes
    {
      q, items := Tailq(NULL, First, nodes), [];
    }

    /** TAILQ_INSERT_HEAD */
    method InsertHead(e: Addr)
      requires Valid() && e != NULL && e in q.nodes && e !in items
      modifies this
      ensures Valid() && items == [e] + old(items) && OthersKept(old(q), q, old(items), e)
    {
      LinkedQueue(q, items, 0, e);
      assert Insert(items, 0, e) == [e] + items;
      if |items| > 0 { At(q, items, 0); }
      var p := SetNext(q, e, q.first);
      p := Behind(p, p.first, NextField(e));
      p := p.(first := e);
      p := SetPrev(p, e, First);
      assert p.nodes == Linked(q, items, 0, e).nodes;
      q, items := p, [e] + items;
    }

    /** TAILQ_INSERT_TAIL */
    method InsertTail(e: Addr)
      requires Valid() && e != NULL && e in q.nodes && e !in items
      modifies this
      ensures Valid() && items == old(items) + [e] && OthersKept(old(q), q, old(items), e)
    {
      LinkedQueue(q, items, |items|, e);
      assert Insert(items, |items|, e) == items + [e];
      Places(q, items, |items|);
      var p := SetNext(q, e, NULL);
      p := SetPrev(p, e, p.last);
      p := Assign(p, p.last, e);
      p := p.(last := NextField(e));
      assert p.nodes == Linked(q, items, |items|, e).nodes;
      q, items := p, items + [e];
    }

    /** TAILQ_INSERT_AFTER; `i` is where `l` is. */
    method InsertAfter(l: Addr, e: Addr, ghost i: nat)
      requires Valid() && e != NULL && e in q.nodes && e !in items && i < |items| && items[i] == l
      modifies this
      ensures Valid() && items == Insert(old(items), i + 1, e) && OthersKept(old(q), q, old(items), e)
    {
      LinkedQueue(q, items, i + 1, e);
      At(q, items, i);
      if i + 1 < |items| { At(q, items, i + 1); }
      var p := SetNext(q, e, q.nodes[l].next);
      p := Behind(p, p.nodes[e].next, NextField(e));
      p := SetNext(p, l, e);
      p := SetPrev(p, e, NextField(l));
      assert p.nodes == Linked(q, items, i + 1, e).nodes;
      q, items := p, Insert(items, i + 1, e);
    }

    /** TAILQ_INSERT_BEFORE */
    method InsertBefore(l: Addr, e: Addr, ghost i: nat)
      requires Valid() && e != NULL && e in q.nodes && e !in items && i < |items| && items[i] == l
      modifies this
      ensures Valid() && items == Insert(old(items), i, e) && OthersKept(old(q), q, old(items), e)
    {
      LinkedQueue(q, items, i, e);
      At(q, items, i);
      Places(q, items, i);
      var p := SetPrev(q, e, q.nodes[l].prev);
      p := SetNext(p, e, l);
      p := Assign(p, p.nodes[l].prev, e);
      p := SetPrev(p, l, NextField(e));
      if i > 0 { At(q, items, i - 1); }
      assert p.nodes == Linked(q, items, i, e).nodes;
      q, items := p, Insert(items, i, e);
    }

    /** TAILQ_REMOVE */
    method Remove(e: Addr, ghost i: nat)
      requires Valid() && i < |items| && items[i] == e
      modifies this
      ensures Valid() && items == Delete(old(items), i) && OthersKept(old(q), q, old(items), e)
    {
      UnlinkedQueue(q, items, i);
      At(q, items, i);
      Places(q, items, i);
      if i + 1 < |items| { At(q, items, i + 1); }
      var p := Behind(q, q.nodes[e].next, q.nodes[e].prev);
      p := Assign(p, p.nodes[e].prev, p.nodes[e].next);
      q, items := p, Delete(items, i);
    }

    /** TAILQ_REPLACE */
    method Replace(e: Addr, e2: Addr, ghost i: nat)
      requires Valid() && i < |items| && items[i] == e && e2 != NULL && e2 in q.nodes && e2 !in items
      modifies this
      ensures Valid() && items == old(items)[i := e2] && OthersKept(old(q), q, old(items), e2)
    {
      At(q, items, i);
      Places(q, items, i);
      if i + 1 < |items| { At(q, items, i + 1); }
      if i > 0 { At(q, items, i - 1); }
      var p := SetNext(q, e2, q.nodes[e].next);
      p := Behind(p, p.nodes[e2].next, NextField(e2));
      p := SetPrev(p, e2, p.nodes[e].prev);
      p := Assign(p, p.nodes[e2].prev, e2);
      QueueReplaced(q, items, i, e2, p);
      ReplacedOthers(q, items, i, e2, p);
      q, items := p, items[i := e2];
    }

    /** TAILQ_LAST: null for the empty queue. */
    method Last() returns (e: Addr)
      requires Valid()
      ensures e == if items == [] then NULL else items[|items| - 1]
    {
      Places(q, items, |items|);
      if |items| > 0 { Places(q, items, |items| - 1); }
      e := Deref(q, Beside(q, q.last));
    }

    /** TAILQ_PREV: null for the first element. */
    method Prev(x: Addr, ghost i: nat) returns (e: Addr)
      requires Valid() && i < |items| && items[i] == x
      ensures e == if i == 0 then NULL else items[i - 1]
    {
      At(q, items, i);
      Places(q, items, i);
      Places(q, items, |items|);
      if i > 0 { Places(q, items, i - 1); }
      e := Deref(q, Beside(q, q.nodes[x].prev));
    }

    /** TAILQ_FOREACH */
    method Foreach() returns (seen: seq<Addr>)
      requires Valid()
      ensures seen == items
    {
      seen := [];
      var v := q.first;
      if |items| > 0 { At(q, items, 0); }
      while v != NULL
        invariant |seen| <= |items| && seen == items[..|seen|] && v == Link(items, |seen|)
        invariant |seen| < |items| ==> v != NULL
        decreases |items| - |seen|
      {
        At(q, items, |seen|);
        if |seen| + 1 < |items| { At(q, items, |seen| + 1); }
        seen := seen + [v];
        v := q.nodes[v].next;
      }
    }

    /** TAILQ_FOREACH_REVERSE: exactly the elements of TAILQ_FOREACH, the other way round. */
    method ForeachReverse() returns (seen: seq<Addr>)
      requires Valid()
      ensures seen == Reversed(items)
    {
      seen := [];
      var v := Last();
      if |items| > 0 { At(q, items, |items| - 1); }
      while v != NULL
        invariant |seen| <= |items| && (forall j :: 0 <= j < |seen| ==> seen[j] == items[|items| - 1 - j])
        invariant v == if |seen| == |items| then NULL else items[|items| - 1 - |seen|]
        decreases |items| - |seen|
      {
        ghost var i := |items| - 1 - |seen|;
        At(q, items, i);
        if i > 0 { At(q, items, i - 1); }
        seen := seen + [v];
        v := Prev(v, i);
      }
      if |seen| < |items| { At(q, items, |items| - 1 - |seen|); }
    }
  }
}
