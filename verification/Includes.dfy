/**
  The graph algorithms of scripts/maint/practracker/includes.py.

  A graph maps each node to the list of the nodes it depends on; a dependency need not
  itself be a node of the graph.  Python iterates over dictionaries and sets in some
  order; here any order will do.
 */
module Includes {

  type Node(==, !new)

  type Graph = map<Node, seq<Node>>

  // ----- paths -----

  ghost predicate Edge(g: Graph, a: Node, b: Node) {
    a in g && b in g[a]
  }

  ghost predicate Path(g: Graph, p: seq<Node>) {
    forall i, j {:trigger p[i], p[j]} :: 0 <= i < |p| && j == i + 1 && j < |p| ==> Edge(g, p[i], p[j])
  }

  ghost predicate PathFrom(g: Graph, a: Node, b: Node, p: seq<Node>) {
    Path(g, p) && 2 <= |p| && p[0] == a && p[|p| - 1] == b
  }

  /** `b` can be reached from `a` by one or more edges. */
  ghost predicate Reaches(g: Graph, a: Node, b: Node) {
    exists p :: PathFrom(g, a, b, p)
  }

  lemma ReachesOne(g: Graph, a: Node, b: Node)
    requires Edge(g, a, b)
    ensures Reaches(g, a, b)
  {
    assert PathFrom(g, a, b, [a, b]);
  }

  lemma ReachesTrans(g: Graph, a: Node, b: Node, c: Node)
    requires Reaches(g, a, b) && Reaches(g, b, c)
    ensures Reaches(g, a, c)
  {
    var p :| PathFrom(g, a, b, p);
    var q :| PathFrom(g, b, c, q);
    var r := p + q[1..];
    forall i, j | 0 <= i < |r| && j == i + 1 && j < |r| ensures Edge(g, r[i], r[j]) {
      if j < |p| {
        assert r[i] == p[i] && r[j] == p[j];
      } else {
        assert r[i] == q[i - |p| + 1] && r[j] == q[j - |p| + 1];
      }
    }
    assert r[|r| - 1] == q[|q| - 1];
    assert PathFrom(g, a, c, r);
  }

  // ----- closure -----

  type Sets = map<Node, set<Node>>

  /** Every listed node is reachable, and every direct dependency is listed. */
  ghost predicate Between(g: Graph, c: Sets) {
    ( && c.Keys == g.Keys
      && (forall k, d {:trigger d in c[k]} :: k in c && d in c[k] ==> Reaches(g, k, d))
      && (forall k, d {:trigger d in g[k]} :: k in g && d in g[k] ==> d in c[k])) == true
  }

  /** What is listed for a node that is listed for `k` is listed for `k` too. */
  ghost predicate ClosedAt(c: Sets, k: Node) {
    k in c && forall v {:trigger c[v]} {:trigger v in c} :: v in c && v in c[k] ==> c[v] <= c[k]
  }

  lemma {:induction false} ClosedReaches(g: Graph, c: Sets, p: seq<Node>)
    requires Between(g, c) && (forall k {:trigger c[k]} :: k in c ==> ClosedAt(c, k))
    requires Path(g, p) && 2 <= |p|
    ensures p[0] in c && p[|p| - 1] in c[p[0]]
  {
    var a, b := p[0], p[1];
    assert Edge(g, a, b);
    assert b in c[a];
    if |p| > 2 {
      var q := p[1..];
      assert Path(g, q) by {
        forall i, j | 0 <= i < |q| && j == i + 1 && j < |q| ensures Edge(g, q[i], q[j]) {
          assert q[i] == p[i + 1] && q[j] == p[j + 1];
        }
      }
      ClosedReaches(g, c, q);
      var s := c[a];
      assert ClosedAt(c, a);
      assert c[b] <= s;
    }
  }

  /** Every pair that could ever be listed. */
  ghost function AllNodes(g: Graph): set<Node> {
    set k, d | k in g && d in g[k] :: d
  }

  ghost function Pairs(c: Sets): set<(Node, Node)> {
    set k, d | k in c && d in c[k] :: (k, d)
  }

  ghost function AllPairs(g: Graph): set<(Node, Node)> {
    set k, d | k in g && d in AllNodes(g) :: (k, d)
  }

  lemma ReachesNode(g: Graph, a: Node, b: Node)
    requires Reaches(g, a, b)
    ensures b in AllNodes(g)
  {
    var p :| PathFrom(g, a, b, p);
    var x := p[|p| - 2];
    assert Edge(g, x, p[|p| - 1]);
  }

  lemma PairsBounded(g: Graph, c: Sets)
    requires Between(g, c)
    ensures Pairs(c) <= AllPairs(g)
  {
    forall k, d | k in c && d in c[k] ensures (k, d) in AllPairs(g) {
      ReachesNode(g, k, d);
    }
  }

  /** graph[k].update(graph.get(v, [])) */
  function Update(c: Sets, k: Node, v: Node): Sets
    requires k in c
  {
    c[k := c[k] + if v in c then c[v] else {}]
  }

  lemma UpdateBetween(g: Graph, c: Sets, k: Node, v: Node)
    requires Between(g, c) && k in c && v in c[k]
    ensures Between(g, Update(c, k, v))
  {
    var c' := Update(c, k, v);
    forall x, d | x in c' && d in c'[x] ensures Reaches(g, x, d) {
      if d !in c[x] {
        assert d in c[v];
        ReachesTrans(g, k, v, d);
      }
    }
  }

  /** `c'` has grown from `c`. */
  ghost predicate Grew(c: Sets, c': Sets) {
    c'.Keys == c.Keys && forall k {:trigger c'[k]} :: k in c ==> c[k] <= c'[k]
  }

  /** The inner loop of closure: everything listed for what was listed for `k` is added. */
  method Absorb(g: Graph, c: Sets, k: Node) returns (c': Sets)
    requires Between(g, c) && k in c
    ensures Between(g, c') && Grew(c, c') && (forall x :: x in c && x != k ==> c'[x] == c[x])
    ensures c' == c ==> ClosedAt(c, k)
  {
    c' := c;
    var todo := c[k];
    while todo != {}
      invariant Between(g, c') && Grew(c, c') && (forall x :: x in c && x != k ==> c'[x] == c[x])
      invariant todo <= c[k]
      invariant forall v {:trigger v in c} :: v in c && v in c[k] && v !in todo ==> c[v] <= c'[k]
      decreases |todo|
    {
      var v :| v in todo;
      assert c[k] <= c'[k];
      UpdateBetween(g, c', k, v);
      ghost var before := c';
      c' := Update(c', k, v);
      assert v in c ==> c[v] <= before[v];
      todo := todo - {v};
    }
  }

  /** One pass of closure over all nodes: if no set changed its size, every node is closed. */
  method Pass(g: Graph, c: Sets) returns (c': Sets, changed: bool)
    requires Between(g, c)
    ensures Between(g, c') && Grew(c, c') && (changed <==> c' != c)
    ensures !changed ==> forall k {:trigger c[k]} :: k in c ==> ClosedAt(c, k)
  {
    c', changed := c, false;
    var todo := c.Keys;
    while todo != {}
      invariant Between(g, c') && Grew(c, c') && todo <= c.Keys
      invariant changed <==> c' != c
      invariant !changed ==> forall k {:trigger c[k]} :: k in c && k !in todo ==> ClosedAt(c, k)
      decreases |todo|
    {
      var k :| k in todo;
      var sz := |c'[k]|;
      ghost var before := c';
      c' := Absorb(g, c', k);
      assert before[k] <= c'[k];
      GrewTrans(c, before, c');
      SameSize(before[k], c'[k]);
      if sz != |c'[k]| {
        changed := true;
        StaysGrown(c, before, c', k);
      } else {
        assert c' == before;
      }
      todo := todo - {k};
    }
  }

  lemma GrewTrans(c: Sets, c1: Sets, c2: Sets)
    requires Grew(c, c1) && Grew(c1, c2)
    ensures Grew(c, c2)
  {
    forall k | k in c ensures c[k] <= c2[k] {
      assert c1[k] <= c2[k];
    }
  }

  /** Set sizes tell whether a growing set grew. */
  lemma SameSize(a: set<Node>, b: set<Node>)
    requires a <= b
    ensures |a| <= |b| && (|a| == |b| ==> a == b)
  {
    assert b == a + (b - a);
  }

  lemma StaysGrown(c: Sets, c1: Sets, c2: Sets, k: Node)
    requires Grew(c, c1) && Grew(c1, c2) && k in c && c1[k] != c2[k]
    ensures c2 != c
  {
    var s := c1[k];
    assert c[k] <= c1[k] && c1[k] <= c2[k];
  }

  lemma SmallerSet(a: set<(Node, Node)>, b: set<(Node, Node)>, x: (Node, Node))
    requires a <= b && x in b && x !in a
    ensures |a| < |b|
  {
    var rest := b - a;
    assert b == a + rest && x in rest;
    assert rest == {x} + (rest - {x});
  }

  lemma PairsGrow(g: Graph, c: Sets, c': Sets)
    requires Between(g, c) && Between(g, c') && Grew(c, c') && c' != c
    ensures |AllPairs(g) - Pairs(c')| < |AllPairs(g) - Pairs(c)|
  {
    PairsBounded(g, c);
    PairsBounded(g, c');
    var k :| k in c && c[k] != c'[k];
    var s := c'[k];
    var d :| d in c'[k] && d !in c[k];
    assert (k, d) in Pairs(c') && (k, d) !in Pairs(c);
    forall x, y | (x, y) in Pairs(c) ensures (x, y) in Pairs(c') {
      var t := c'[x];
    }
    var a, b := AllPairs(g) - Pairs(c'), AllPairs(g) - Pairs(c);
    SmallerSet(a, b, (k, d));
  }

  /** closure: it terminates, with exactly the nodes that can be reached by one or more edges. */
  method Closure(g: Graph) returns (c: Sets)
    ensures c.Keys == g.Keys
    ensures forall k, d :: k in g ==> (d in c[k] <==> Reaches(g, k, d))
  {
    c := map k | k in g :: set d | d in g[k];
    forall k, d | k in c && d in c[k] ensures Reaches(g, k, d) {
      ReachesOne(g, k, d);
    }
    while true
      invariant Between(g, c)
      decreases |AllPairs(g) - Pairs(c)|
    {
      var c', changed := Pass(g, c);
      if !changed { break; }
      PairsGrow(g, c, c');
      c := c';
    }
    forall k, d | k in g && Reaches(g, k, d) ensures d in c[k] {
      var p :| PathFrom(g, k, d, p);
      ClosedReaches(g, c, p);
    }
  }

  // ----- toposort -----

  /** [ d for d in s if d in keys ] */
  function Keep(s: seq<Node>, keys: set<Node>): seq<Node> {
    if s == [] then [] else (if s[0] in keys then [s[0]] else []) + Keep(s[1..], keys)
  }

  lemma {:induction false} KeepMembers(s: seq<Node>, keys: set<Node>)
    ensures forall d :: d in Keep(s, keys) <==> d in s && d in keys
  {
    if s != [] {
      KeepMembers(s[1..], keys);
      assert s == [s[0]] + s[1..];
    }
  }

  /** The nodes of `g` without a dependency in `g`. */
  ghost predicate Bare(g: Graph, k: Node) {
    k in g && forall d {:trigger d in g[k]} :: d in g[k] ==> d !in g
  }

  /** The state of the loop that filters: `todo` is still as it was. */
  ghost predicate Filtering(g: Graph, g': Graph, level: seq<Node>, todo: set<Node>) {
    ( && todo <= g.Keys && g'.Keys == g.Keys
      && (forall k {:trigger g'[k]} :: k in g ==> g'[k] == if k in todo then g[k] else Keep(g[k], g.Keys))
      && (forall k {:trigger k in level} :: k in level <==> Bare(g, k) && k !in todo)
      && (forall i, j {:trigger level[i], level[j]} :: 0 <= i < j < |level| ==> level[i] != level[j])) == true
  }

  /** The first loop of a turn of toposort: lists are filtered, and nodes left without dependencies make up the level. */
  method FilterLevel(g: Graph) returns (g': Graph, level: seq<Node>)
    ensures g'.Keys == g.Keys && (forall k :: k in g ==> g'[k] == Keep(g[k], g.Keys))
    ensures (forall k :: k in level <==> Bare(g, k)) && (forall i, j :: 0 <= i < j < |level| ==> level[i] != level[j])
  {
    g', level := g, [];
    var todo := g.Keys;
    while todo != {}
      invariant Filtering(g, g', level, todo)
      decreases |todo|
    {
      var k :| k in todo;
      g', level, todo := FilterOne(g, g', level, todo, k);
    }
  }

  method FilterOne(ghost g: Graph, g1: Graph, level: seq<Node>, todo: set<Node>, k: Node) returns (g': Graph, level': seq<Node>, todo': set<Node>)
    requires Filtering(g, g1, level, todo) && k in todo
    ensures Filtering(g, g', level', todo') && todo' == todo - {k}
  {
    g' := g1[k := Keep(g1[k], g1.Keys)];
    BareIffEmpty(g, k);
    level' := if g'[k] == [] then level + [k] else level;
    todo' := todo - {k};
    assert g1[k] == g[k] && k !in level;
    forall i, j | 0 <= i < j < |level'| ensures level'[i] != level'[j] {
      assert level'[i] == level[i];
      assert j < |level| ==> level'[j] == level[j];
    }
    forall x ensures x in level' <==> Bare(g, x) && x !in todo' {
      assert x in level <==> Bare(g, x) && x !in todo;
    }
  }

  lemma BareIffEmpty(g: Graph, k: Node)
    requires k in g
    ensures Keep(g[k], g.Keys) == [] <==> Bare(g, k)
  {
    KeepMembers(g[k], g.Keys);
    if Keep(g[k], g.Keys) != [] {
      var d := Keep(g[k], g.Keys)[0];
      assert d in g[k] && d in g;
    }
  }

  /** for k in cur_level: del graph[k] */
  method DeleteAll(g: Graph, level: seq<Node>) returns (g': Graph)
    ensures g' == map k | k in g && k !in level :: g[k]
  {
    g' := g;
    var i := 0;
    while i < |level|
      invariant 0 <= i <= |level| && g' == map k | k in g && k !in level[..i] :: g[k]
    {
      assert level[..i + 1] == level[..i] + [level[i]];
      g' := g' - {level[i]};
      i := i + 1;
    }
    assert level[..i] == level;
  }

  /** Node `k` was placed in one of the first `n` levels. */
  ghost predicate Placed(levels: seq<seq<Node>>, n: int, k: Node) {
    exists i {:trigger levels[i]} :: 0 <= i < n && i < |levels| && k in levels[i]
  }

  /** Each placed node comes strictly after every dependency that is a node, and no node is placed twice. */
  ghost predicate Ordered(g: Graph, levels: seq<seq<Node>>) {
    && (forall i, k {:trigger k in levels[i]} :: 0 <= i < |levels| && k in levels[i] ==>
          k in g && !Placed(levels, i, k) && forall d :: d in g[k] && d in g ==> Placed(levels, i, d))
    && (forall i, a, b {:trigger levels[i][a], levels[i][b]} :: 0 <= i < |levels| && 0 <= a < b < |levels[i]| ==> levels[i][a] != levels[i][b])
  }

  /** A chain of nodes of the graph, each depending on the next. */
  ghost predicate Chain(g: Graph, p: seq<Node>) {
    Path(g, p) && forall i {:trigger p[i]} :: 0 <= i < |p| ==> p[i] in g
  }

  ghost predicate Simple(p: seq<Node>) {
    forall i, j {:trigger p[i], p[j]} :: 0 <= i < j < |p| ==> p[i] != p[j]
  }

  /** The nodes that are left, and what is left of their lists. */
  ghost predicate Leftover(g: Graph, levels: seq<seq<Node>>, left: Graph) {
    && (forall k {:trigger k in left} :: k in left <==> k in g && !Placed(levels, |levels|, k))
    && (forall k, d {:trigger d in left[k]} {:trigger d in g[k]} :: k in left && d in left ==> (d in left[k] <==> d in g[k]))
  }

  ghost predicate ChainFrom(g: Graph, k: Node, p: seq<Node>) {
    Chain(g, p) && 0 < |p| && p[0] == k
  }

  /** Every node that is left starts a chain of `n` nodes. */
  ghost predicate Deep(g: Graph, left: Graph, n: nat) {
    forall k {:trigger k in left} :: k in left ==> exists p :: ChainFrom(g, k, p) && |p| == n
  }

  ghost predicate Sorting(g: Graph, levels: seq<seq<Node>>, left: Graph) {
    (Ordered(g, levels) && Leftover(g, levels, left) && Deep(g, left, |levels| + 1)) == true
  }

  lemma PlacedSnoc(levels: seq<seq<Node>>, level: seq<Node>)
    ensures forall n, k {:trigger Placed(levels + [level], n, k)} :: n <= |levels| ==> (Placed(levels + [level], n, k) <==> Placed(levels, n, k))
    ensures forall k {:trigger Placed(levels + [level], |levels| + 1, k)} ::
      Placed(levels + [level], |levels| + 1, k) <==> Placed(levels, |levels|, k) || k in level
  {
    var ls := levels + [level];
    assert forall i :: 0 <= i < |levels| ==> ls[i] == levels[i];
    assert ls[|levels|] == level;
  }

  lemma LevelOrdered(g: Graph, levels: seq<seq<Node>>, left: Graph, level: seq<Node>)
    requires Ordered(g, levels) && Leftover(g, levels, left)
    requires (forall k :: k in level <==> Bare(left, k)) && (forall i, j :: 0 <= i < j < |level| ==> level[i] != level[j])
    ensures Ordered(g, levels + [level])
  {
    var ls := levels + [level];
    PlacedSnoc(levels, level);
    forall i, k | 0 <= i < |ls| && k in ls[i]
      ensures k in g && !Placed(ls, i, k) && forall d :: d in g[k] && d in g ==> Placed(ls, i, d)
    {
      if i < |levels| {
        assert k in levels[i];
      } else {
        assert Bare(left, k);
        forall d | d in g[k] && d in g ensures Placed(ls, i, d) {
          assert d !in left;
        }
      }
    }
    assert forall i :: 0 <= i < |levels| ==> ls[i] == levels[i];
  }

  lemma LevelLeft(g: Graph, levels: seq<seq<Node>>, left: Graph, level: seq<Node>, left': Graph)
    requires Leftover(g, levels, left)
    requires left' == map k | k in left && k !in level :: Keep(left[k], left.Keys)
    ensures Leftover(g, levels + [level], left')
  {
    PlacedSnoc(levels, level);
    assert |levels + [level]| == |levels| + 1;
    forall k, d | k in left' && d in left' ensures d in left'[k] <==> d in g[k] {
      KeepMembers(left[k], left.Keys);
      assert d in left[k] <==> d in g[k];
    }
  }

  lemma LevelDeep(g: Graph, levels: seq<seq<Node>>, left: Graph, level: seq<Node>, left': Graph, n: nat)
    requires Leftover(g, levels, left) && Deep(g, left, n) && n > 0
    requires (forall k :: k in level <==> Bare(left, k)) && (forall k :: k in left' ==> k in left && k !in level)
    ensures Deep(g, left', n + 1)
  {
    forall k | k in left' ensures exists p :: ChainFrom(g, k, p) && |p| == n + 1 {
      var d :| d in left[k] && d in left;
      var p :| ChainFrom(g, d, p) && |p| == n;
      var q := [k] + p;
      assert d in g[k];
      forall i, j | 0 <= i < |q| && j == i + 1 && j < |q| ensures Edge(g, q[i], q[j]) {
        if i > 0 { assert q[i] == p[i - 1] && q[j] == p[j - 1]; }
      }
      forall i | 0 <= i < |q| ensures q[i] in g {
        if i > 0 { assert q[i] == p[i - 1]; }
      }
      assert ChainFrom(g, k, q);
    }
  }

  /** toposort; `left` is what the graph has become. */
  method Toposort(graph: Graph, limit: nat) returns (levels: seq<seq<Node>>, left: Graph)
    ensures Ordered(graph, levels) && Leftover(graph, levels, left) && |levels| <= limit + 1
    ensures left != map[] ==> |levels| == limit + 1 && Deep(graph, left, limit + 2)
  {
    levels, left := [], graph;
    SortingStarts(graph);
    var n := 0;
    while left != map[]
      invariant n == |levels| <= limit && Sorting(graph, levels, left)
      decreases limit - n
    {
      var filtered, level := FilterLevel(left);
      var next := DeleteAll(filtered, level);
      LevelOrdered(graph, levels, left, level);
      LevelLeft(graph, levels, left, level, next);
      LevelDeep(graph, levels, left, level, next, n + 1);
      levels, left, n := levels + [level], next, n + 1;
      if n > limit { return; }
    }
  }

  lemma SortingStarts(g: Graph)
    ensures Sorting(g, [], g)
  {
    forall k | k in g ensures exists p :: ChainFrom(g, k, p) && |p| == 1 {
      assert ChainFrom(g, k, [k]);
    }
  }

  /** Going along a path, levels fall; so a node that reaches itself is never placed. */
  lemma {:induction false} PathFalls(g: Graph, levels: seq<seq<Node>>, p: seq<Node>, i: nat)
    requires Ordered(g, levels) && Path(g, p) && 2 <= |p| && p[|p| - 1] in g && i < |levels| && p[0] in levels[i]
    ensures Placed(levels, i, p[|p| - 1])
  {
    var a, b := p[0], p[1];
    assert Edge(g, a, b);
    if |p| == 2 {
      assert a in levels[i];
    } else {
      var q := p[1..];
      assert q[0] == b && q[|q| - 1] == p[|p| - 1];
      forall x, y | 0 <= x < |q| && y == x + 1 && y < |q| ensures Edge(g, q[x], q[y]) {
        assert q[x] == p[x + 1] && q[y] == p[y + 1];
      }
      assert Edge(g, q[0], q[1]);
      assert Placed(levels, i, b);
      var j :| 0 <= j < i && j < |levels| && b in levels[j];
      PathFalls(g, levels, q, j);
      var m :| 0 <= m < j && m < |levels| && q[|q| - 1] in levels[m];
    }
  }

  lemma CyclesStay(g: Graph, levels: seq<seq<Node>>, left: Graph, k: Node)
    requires Ordered(g, levels) && Leftover(g, levels, left) && k in g && Reaches(g, k, k)
    ensures k in left
  {
    var p :| PathFrom(g, k, k, p);
    if Placed(levels, |levels|, k) {
      var i :| 0 <= i < |levels| && k in levels[i];
      PathFalls(g, levels, p, i);
      assert false;
    }
  }

  /** Without a node that reaches itself, every chain is simple. */
  lemma ChainSimple(g: Graph, p: seq<Node>)
    requires Chain(g, p) && forall k :: k in g ==> !Reaches(g, k, k)
    ensures Simple(p)
  {
    forall i, j | 0 <= i < j < |p| ensures p[i] != p[j] {
      var q := p[i..j + 1];
      assert Path(g, q) by {
        forall x, y | 0 <= x < |q| && y == x + 1 && y < |q| ensures Edge(g, q[x], q[y]) {
          assert q[x] == p[i + x] && q[y] == p[i + y];
        }
      }
      assert p[i] in g;
      if p[i] == p[j] { assert PathFrom(g, p[i], p[i], q); }
    }
  }

  /** When no simple chain has more than limit + 1 nodes, toposort leaves something exactly when some node is in its own closure. */
  lemma LeftIffCycle(g: Graph, levels: seq<seq<Node>>, left: Graph, limit: nat)
    requires Ordered(g, levels) && Leftover(g, levels, left) && (left != map[] ==> Deep(g, left, limit + 2))
    requires forall p :: Chain(g, p) && Simple(p) ==> |p| <= limit + 1
    ensures left != map[] <==> exists k :: k in g && Reaches(g, k, k)
  {
    if exists k :: k in g && Reaches(g, k, k) {
      var k :| k in g && Reaches(g, k, k);
      CyclesStay(g, levels, left, k);
    } else if left != map[] {
      var k :| k in left;
      var p :| ChainFrom(g, k, p) && |p| == limit + 2;
      ChainSimple(g, p);
      assert false;
    }
  }

  lemma {:induction false} ChainFalls(g: Graph, levels: seq<seq<Node>>, p: seq<Node>, i: nat)
    requires Ordered(g, levels) && Chain(g, p) && 0 < |p| && i < |levels| && p[0] in levels[i]
    ensures |p| <= i + 1
  {
    if |p| > 1 {
      var a, b, q := p[0], p[1], p[1..];
      assert Edge(g, a, b);
      assert Placed(levels, i, b);
      forall x, y | 0 <= x < |q| && y == x + 1 && y < |q| ensures Edge(g, q[x], q[y]) {
        assert q[x] == p[x + 1] && q[y] == p[y + 1];
      }
      forall x | 0 <= x < |q| ensures q[x] in g {
        assert q[x] == p[x + 1];
      }
      var j :| 0 <= j < i && j < |levels| && b in levels[j];
      ChainFalls(g, levels, q, j);
    }
  }

  /** For every graph: toposort leaves something exactly when there is a chain, repetitions allowed, of limit + 2 nodes. */
  lemma LeftIffLongChain(g: Graph, levels: seq<seq<Node>>, left: Graph, limit: nat)
    requires Ordered(g, levels) && Leftover(g, levels, left) && |levels| <= limit + 1 && (left != map[] ==> Deep(g, left, limit + 2))
    ensures left != map[] <==> exists p :: Chain(g, p) && |p| == limit + 2
  {
    if left != map[] {
      var k :| k in left;
      var p :| ChainFrom(g, k, p) && |p| == limit + 2;
      assert Chain(g, p);
    }
    if exists p :: Chain(g, p) && |p| == limit + 2 {
      var p :| Chain(g, p) && |p| == limit + 2;
      var k := p[0];
      if Placed(levels, |levels|, k) {
        var i :| 0 <= i < |levels| && k in levels[i];
        ChainFalls(g, levels, p, i);
      }
      assert k in left;
    }
  }

  /** What node `i` of a line depends on: the next one. */
  function After(ps: seq<Node>, i: nat): seq<Node> {
    if i + 1 < |ps| then [ps[i + 1]] else []
  }

  /** The graph has the nodes of `ps`, and each depends on the next one alone. */
  ghost predicate Line(g: Graph, ps: seq<Node>) {
    && Simple(ps) && (forall k {:trigger k in g} :: k in g <==> k in ps)
    && (forall i: nat {:trigger After(ps, i)} :: i < |ps| ==> ps[i] in g && g[ps[i]] == After(ps, i))
  }

  /** There is such a graph for any distinct nodes. */
  lemma {:induction false} LineOf(ps: seq<Node>) returns (g: Graph)
    requires Simple(ps)
    ensures Line(g, ps)
  {
    g := map[];
    if ps != [] {
      var qs := ps[1..];
      assert Simple(qs) by { assert forall i :: 0 <= i < |qs| ==> qs[i] == ps[i + 1]; }
      var h := LineOf(qs);
      g := h[ps[0] := After(ps, 0)];
      LineCons(g, h, ps, qs);
    }
  }

  lemma LineCons(g: Graph, h: Graph, ps: seq<Node>, qs: seq<Node>)
    requires 0 < |ps| && qs == ps[1..] && Simple(ps) && Line(h, qs) && g == h[ps[0] := After(ps, 0)]
    ensures Line(g, ps)
  {
    assert ps == [ps[0]] + qs;
    forall i: nat | i < |ps| ensures ps[i] in g && g[ps[i]] == After(ps, i) {
      if i > 0 {
        var j := i - 1;
        assert qs[j] == ps[i] && ps[i] != ps[0] && After(qs, j) == After(ps, i);
      }
    }
  }

  /** A path in a line only goes forward. */
  lemma {:induction false} LinePath(g: Graph, ps: seq<Node>, p: seq<Node>, i: nat, j: nat)
    requires Line(g, ps) && Path(g, p) && i < |ps| && j < |p| && p[0] == ps[i]
    ensures i + j < |ps| && p[j] == ps[i + j]
  {
    if j > 0 {
      var j' := j - 1;
      LinePath(g, ps, p, i, j');
      var k := i + j';
      assert Edge(g, p[j'], p[j]) && g[ps[k]] == After(ps, k);
    }
  }

  /**
    The docstring's "if the graph does not become empty, then it contains a cycle" fails at every limit: a line of
    limit + 2 nodes has no cycle, and toposort always leaves some of it.
   */
  lemma ChainLeftOver(g: Graph, ps: seq<Node>, limit: nat, levels: seq<seq<Node>>, left: Graph)
    requires Line(g, ps) && |ps| == limit + 2
    requires Ordered(g, levels) && Leftover(g, levels, left) && |levels| <= limit + 1 && (left != map[] ==> Deep(g, left, limit + 2))
    ensures left != map[] && forall k :: k in g ==> !Reaches(g, k, k)
  {
    LineChain(g, ps);
    LeftIffLongChain(g, levels, left, limit);
    forall k, p | k in g ensures !PathFrom(g, k, k, p) {
      NoReturn(g, ps, k, p);
    }
  }

  lemma LineChain(g: Graph, ps: seq<Node>)
    requires Line(g, ps)
    ensures Chain(g, ps)
  {
    forall i, j | 0 <= i < |ps| && j == i + 1 && j < |ps| ensures Edge(g, ps[i], ps[j]) {
      assert g[ps[i]] == After(ps, i);
    }
  }

  lemma NoReturn(g: Graph, ps: seq<Node>, k: Node, p: seq<Node>)
    requires Line(g, ps) && k in g
    ensures !PathFrom(g, k, k, p)
  {
    if PathFrom(g, k, k, p) {
      var i :| 0 <= i < |ps| && ps[i] == k;
      LinePath(g, ps, p, i, |p| - 1);
    }
  }

  // ----- remove_self_edges -----

  /** [ d for d in s if d != k ] */
  function Without(s: seq<Node>, k: Node): seq<Node> {
    if s == [] then [] else
      var n := |s| - 1;
      Without(s[..n], k) + if s[n] != k then [s[n]] else []
  }

  lemma {:induction false} WithoutMembers(s: seq<Node>, k: Node)
    ensures forall d :: d in Without(s, k) <==> d in s && d != k
  {
    if s != [] {
      var n := |s| - 1;
      WithoutMembers(s[..n], k);
      assert s == s[..n] + [s[n]];
    }
  }

  /** `r` is `s` at the positions `f`, which go up and are those that do not hold `k`. */
  ghost predicate InOrder(s: seq<Node>, k: Node, f: seq<nat>, r: seq<Node>) {
    && |f| == |r| && (forall i :: 0 <= i < |f| ==> f[i] < |s| && s[f[i]] != k && r[i] == s[f[i]])
    && (forall i, j :: 0 <= i < j < |f| ==> f[i] < f[j])
    && (forall j :: 0 <= j < |s| && s[j] != k ==> j in f)
  }

  lemma InOrderKeep(s: seq<Node>, k: Node, f: seq<nat>, r: seq<Node>, x: Node)
    requires InOrder(s, k, f, r) && x != k
    ensures InOrder(s + [x], k, f + [|s|], r + [x])
  {
    assert (f + [|s|])[|f|] == |s|;
  }

  lemma InOrderDrop(s: seq<Node>, k: Node, f: seq<nat>, r: seq<Node>)
    requires InOrder(s, k, f, r)
    ensures InOrder(s + [k], k, f, r)
  {
  }

  /** The comprehension leaves out `k` and keeps the order of the rest. */
  lemma {:induction false} WithoutInOrder(s: seq<Node>, k: Node) returns (f: seq<nat>)
    ensures InOrder(s, k, f, Without(s, k))
  {
    if s == [] {
      f := [];
    } else {
      var n := |s| - 1;
      assert s == s[..n] + [s[n]];
      f := WithoutInOrder(s[..n], k);
      if s[n] != k {
        InOrderKeep(s[..n], k, f, Without(s[..n], k), s[n]);
        f := f + [n];
      } else {
        InOrderDrop(s[..n], k, f, Without(s[..n], k));
      }
    }
  }

  /** remove_self_edges: no node depends on itself any more, and which nodes reach which others is unchanged. */
  method RemoveSelfEdges(graph: Graph) returns (g: Graph)
    ensures g.Keys == graph.Keys && (forall k :: k in graph ==> g[k] == Without(graph[k], k))
    ensures forall a, b :: Edge(g, a, b) <==> Edge(graph, a, b) && a != b
    ensures forall a, b :: a != b ==> (Reaches(g, a, b) <==> Reaches(graph, a, b))
  {
    g := graph;
    var todo := graph.Keys;
    while todo != {}
      invariant todo <= graph.Keys && g.Keys == graph.Keys
      invariant forall k :: k in graph ==> g[k] == if k in todo then graph[k] else Without(graph[k], k)
      decreases |todo|
    {
      var k :| k in todo;
      g := g[k := Without(g[k], k)];
      todo := todo - {k};
    }
    forall a, b ensures Edge(g, a, b) <==> Edge(graph, a, b) && a != b {
      if a in graph { WithoutMembers(graph[a], a); }
    }
    forall a, b | a != b ensures Reaches(g, a, b) <==> Reaches(graph, a, b) {
      SelfEdgesDoNotMatter(graph, g, a, b);
    }
  }

  lemma SelfEdgesDoNotMatter(g: Graph, g': Graph, a: Node, b: Node)
    requires a != b && forall x, y {:trigger Edge(g', x, y)} {:trigger Edge(g, x, y)} :: Edge(g', x, y) <==> Edge(g, x, y) && x != y
    ensures Reaches(g', a, b) <==> Reaches(g, a, b)
  {
    if Reaches(g', a, b) {
      var p :| PathFrom(g', a, b, p);
      assert PathFrom(g, a, b, p);
    }
    if Reaches(g, a, b) {
      var p :| PathFrom(g, a, b, p);
      Straighten(g, g', a, b, p);
    }
  }

  lemma {:induction false} Straighten(g: Graph, g': Graph, a: Node, b: Node, p: seq<Node>)
    requires a != b && PathFrom(g, a, b, p)
    requires forall x, y {:trigger Edge(g', x, y)} {:trigger Edge(g, x, y)} :: Edge(g', x, y) <==> Edge(g, x, y) && x != y
    ensures Reaches(g', a, b)
    decreases |p|
  {
    var c := p[1];
    assert Edge(g, p[0], p[1]);
    if |p| == 2 {
      ReachesOne(g', a, b);
    } else {
      var q := p[1..];
      assert PathFrom(g, c, b, q) by {
        forall x, y | 0 <= x < |q| && y == x + 1 && y < |q| ensures Edge(g, q[x], q[y]) {
          assert q[x] == p[x + 1] && q[y] == p[y + 1];
        }
      }
      if c == b {
        ReachesOne(g', a, b);
      } else {
        Straighten(g, g', c, b, q);
        if c != a {
          ReachesOne(g', a, c);
          ReachesTrans(g', a, c, b);
        }
      }
    }
  }
}
