/**
 Citation-graph expansion: a breadth-first walk over a reference oracle, under
 caps on depth, on the number of works and on the references taken from one.

 Work ids are a type parameter: the walk only compares them. What one fetch
 gives is the oracle's answer for that work.
 */
module CitationGraph {
  import opened Wrappers

  datatype Caps = Caps(depth: nat, total: nat, perPaper: nat)

  const MAX := Caps(3, 100, 20)

  function Min(a: nat, b: nat): nat {
    if a < b then a else b
  }

  function Max(a: nat, b: nat): nat {
    if a < b then b else a
  }

  function Clamped(c: Caps): Caps {
    Caps(Min(c.depth, MAX.depth), Min(c.total, MAX.total), Min(c.perPaper, MAX.perPaper))
  }

  /** A cap is kept as it was asked for, up to 3 levels, 100 works and 20
      references, and is that maximum beyond. */
  lemma ClampedIs(c: Caps)
    ensures var r := Clamped(c);
            && r.depth <= c.depth && r.depth <= 3 && (r.depth == c.depth || r.depth == 3)
            && r.total <= c.total && r.total <= 100 && (r.total == c.total || r.total == 100)
            && r.perPaper <= c.perPaper && r.perPaper <= 20 && (r.perPaper == c.perPaper || r.perPaper == 20)
  {
  }

  datatype Node<W> = Node(id: W, depth: nat)

  datatype Edge<W> = Edge(from: W, to: W)

  datatype GraphResult<W> = GraphResult(
    seedWorkId: W,
    nodes: seq<Node<W>>,
    edges: seq<Edge<W>>,
    truncated: bool,
    totalVisited: nat)

  /** What asking for one work gives: no answer; an answer the provenance log
      could not record; one that is not JSON; or its references. */
  datatype Fetched<W> = NoAnswer | NotLogged | NotParsed | References(refs: seq<W>)

  /** What asking for the seed gives. */
  datatype SeedAnswer<W> = SeedFails | SeedNotFound | SeedRecord(id: W, refs: seq<W>)

  datatype GraphError = CapabilityDenied | SourceError | SeedNotIndexed | LogFailed

  /** The works the oracle says `u` cites; those of the seed came with it. */
  function Cited<W(==)>(seed: W, seedRefs: seq<W>, oracle: W -> Fetched<W>, u: W): seq<W> {
    if u == seed then seedRefs
    else match oracle(u)
         case References(refs) => refs
         case _ => []
  }

  function CitedBy<W(==)>(seed: W, seedRefs: seq<W>, oracle: W -> Fetched<W>): W -> seq<W> {
    u => Cited(seed, seedRefs, oracle, u)
  }

  /** Where the edges out of `u` lead, in order. */
  function Targets<W(==)>(edges: seq<Edge<W>>, u: W): seq<W> {
    if edges == [] then [] else
      var last := edges[|edges| - 1];
      Targets(edges[..|edges| - 1], u) + if last.from == u then [last.to] else []
  }

  /** Only `parent` gained an edge, to `child`. */
  ghost predicate Cites<W(!new)>(before: seq<Edge<W>>, after: seq<Edge<W>>, parent: W, child: W) {
    && Targets(after, parent) == Targets(before, parent) + [child]
    && KeptElsewhere(before, after, parent)
  }

  /** The edges out of every other work are as they were. */
  ghost predicate KeptElsewhere<W(!new)>(before: seq<Edge<W>>, after: seq<Edge<W>>, parent: W) {
    forall u :: u != parent ==> Targets(after, u) == Targets(before, u)
  }

  lemma EdgeAdded<W(!new)>(edges: seq<Edge<W>>, parent: W, child: W)
    ensures Cites(edges, edges + [Edge(parent, child)], parent, child)
  {
    assert (edges + [Edge(parent, child)])[..|edges|] == edges;
  }

  // ---- What the walk keeps true ----

  ghost predicate Listed<W>(nodes: seq<Node<W>>, depthOf: map<W, nat>, v: W) {
    v in depthOf && Node(v, depthOf[v]) in nodes
  }

  ghost predicate GivenAt<W>(nodes: seq<Node<W>>, depthOf: map<W, nat>, i: int)
    requires 0 <= i < |nodes|
  {
    nodes[i].id in depthOf && depthOf[nodes[i].id] == nodes[i].depth
  }

  ghost predicate Apart<W>(nodes: seq<Node<W>>, i: int, j: int)
    requires 0 <= i < j < |nodes|
  {
    nodes[i].id != nodes[j].id
  }

  ghost predicate Distinct<W>(nodes: seq<Node<W>>) {
    forall i, j :: 0 <= i < j < |nodes| ==> Apart(nodes, i, j)
  }

  /** Every work is in once, with the depth it was given. */
  ghost predicate Registered<W>(nodes: seq<Node<W>>, depthOf: map<W, nat>) {
    && (forall i :: 0 <= i < |nodes| ==> GivenAt(nodes, depthOf, i))
    && Distinct(nodes)
    && (forall v {:trigger Listed(nodes, depthOf, v)} :: v in depthOf ==> Listed(nodes, depthOf, v))
  }

  ghost predicate NotAbove<W>(nodes: seq<Node<W>>, i: int, j: int)
    requires 0 <= i < j < |nodes|
  {
    nodes[i].depth <= nodes[j].depth
  }

  ghost predicate OneBelow<W>(nodes: seq<Node<W>>, p: int, i: int)
    requires 0 <= i < |nodes| && 0 <= p < |nodes|
  {
    nodes[i].depth <= nodes[p].depth + 1
  }

  /** Works come in order of depth, none more than one level below the work
      at `p`, which was taken from the queue last. */
  ghost predicate Levelled<W>(nodes: seq<Node<W>>, p: nat) {
    && p < |nodes|
    && (forall i, j :: 0 <= i < j < |nodes| ==> NotAbove(nodes, i, j))
    && (forall i :: 0 <= i < |nodes| ==> OneBelow(nodes, p, i))
  }

  ghost predicate FoundAbove<W>(edges: seq<Edge<W>>, depthOf: map<W, nat>, foundFrom: map<W, W>, v: W) {
    && v in depthOf && v in foundFrom && foundFrom[v] in depthOf
    && depthOf[v] == depthOf[foundFrom[v]] + 1 && Edge(foundFrom[v], v) in edges
  }

  /** No edge leads down more than one level, and every work but the seed was
      found from one exactly a level above it. */
  ghost predicate Linked<W>(seed: W, edges: seq<Edge<W>>, depthOf: map<W, nat>, foundFrom: map<W, W>) {
    && (forall e :: e in edges ==> e.from in depthOf && e.to in depthOf && depthOf[e.to] <= depthOf[e.from] + 1)
    && (forall v {:trigger FoundAbove(edges, depthOf, foundFrom, v)} ::
          v in depthOf && v != seed ==> FoundAbove(edges, depthOf, foundFrom, v))
  }

  ghost predicate WithinCaps<W>(nodes: seq<Node<W>>, caps: Caps) {
    && |nodes| <= Max(1, caps.total)
    && (forall i :: 0 <= i < |nodes| ==> nodes[i].depth <= Max(1, caps.depth))
  }

  lemma RegisteredGrows<W>(nodes: seq<Node<W>>, depthOf: map<W, nat>, n: Node<W>)
    requires Registered(nodes, depthOf) && n.id !in depthOf
    ensures Registered(nodes + [n], depthOf[n.id := n.depth])
  {
    var more, deeper := nodes + [n], depthOf[n.id := n.depth];
    assert more[|nodes|] == n;
    forall i | 0 <= i < |more| ensures GivenAt(more, deeper, i) {
      assert i < |nodes| ==> GivenAt(nodes, depthOf, i);
    }
    forall i, j | 0 <= i < j < |more| ensures Apart(more, i, j) {
      assert GivenAt(nodes, depthOf, i) && (j < |nodes| ==> Apart(nodes, i, j));
    }
    forall v | v in deeper ensures Listed(more, deeper, v) {
      if v != n.id {
        assert Listed(nodes, depthOf, v);
      }
    }
  }

  lemma WithinCapsGrows<W>(nodes: seq<Node<W>>, caps: Caps, n: Node<W>)
    requires WithinCaps(nodes, caps) && |nodes| < caps.total && n.depth <= Max(1, caps.depth)
    ensures WithinCaps(nodes + [n], caps)
  {
  }

  lemma LevelledGrows<W>(nodes: seq<Node<W>>, p: nat, n: Node<W>)
    requires Levelled(nodes, p) && n.depth == nodes[p].depth + 1
    ensures Levelled(nodes + [n], p)
  {
    var more := nodes + [n];
    forall i | 0 <= i < |more| ensures OneBelow(more, p, i) {
      assert i < |nodes| ==> OneBelow(nodes, p, i);
    }
    forall i, j | 0 <= i < j < |more| ensures NotAbove(more, i, j) {
      assert if j < |nodes| then NotAbove(nodes, i, j) else OneBelow(nodes, p, i);
    }
  }

  lemma LevelledMovesOn<W>(nodes: seq<Node<W>>, p: nat)
    requires Levelled(nodes, p) && p + 1 < |nodes|
    ensures Levelled(nodes, p + 1)
  {
    var q := p + 1;
    assert NotAbove(nodes, p, q);
    forall i | 0 <= i < |nodes| ensures OneBelow(nodes, q, i) {
      assert OneBelow(nodes, p, i);
    }
  }

  lemma NoneFarBelow<W>(nodes: seq<Node<W>>, depthOf: map<W, nat>, p: nat, v: W)
    requires Registered(nodes, depthOf) && Levelled(nodes, p) && v in depthOf
    ensures nodes[p].id in depthOf && depthOf[v] <= depthOf[nodes[p].id] + 1
  {
    assert Listed(nodes, depthOf, v) && GivenAt(nodes, depthOf, p);
    var i :| 0 <= i < |nodes| && nodes[i] == Node(v, depthOf[v]);
    assert OneBelow(nodes, p, i);
  }

  lemma LinkedGrows<W>(seed: W, edges: seq<Edge<W>>, depthOf: map<W, nat>, foundFrom: map<W, W>, u: W, v: W)
    requires Linked(seed, edges, depthOf, foundFrom) && u in depthOf && v !in depthOf
    ensures Linked(seed, edges + [Edge(u, v)], depthOf[v := depthOf[u] + 1], foundFrom[v := u])
  {
    var more := edges + [Edge(u, v)];
    var deeper, found := depthOf[v := depthOf[u] + 1], foundFrom[v := u];
    assert more[|edges|] == Edge(u, v);
    forall w | w in deeper && w != seed ensures FoundAbove(more, deeper, found, w) {
      if w != v {
        assert FoundAbove(edges, depthOf, foundFrom, w);
      }
    }
  }

  lemma LinkedAgain<W>(seed: W, edges: seq<Edge<W>>, depthOf: map<W, nat>, foundFrom: map<W, W>, u: W, v: W)
    requires Linked(seed, edges, depthOf, foundFrom) && u in depthOf && v in depthOf
    requires depthOf[v] <= depthOf[u] + 1
    ensures Linked(seed, edges + [Edge(u, v)], depthOf, foundFrom)
  {
    forall w | w in depthOf && w != seed ensures FoundAbove(edges + [Edge(u, v)], depthOf, foundFrom, w) {
      assert FoundAbove(edges, depthOf, foundFrom, w);
    }
  }

  predicate AllIn<W(==)>(refs: seq<W>, visited: set<W>) {
    forall v :: v in refs ==> v in visited
  }

  /** The references of one work within its cap were taken, in order: all of them,
      or those before the first for which there was no room. */
  ghost predicate TakesFrom<W>(refs: seq<W>, taken: seq<W>, inGraph: set<W>, works: nat, caps: Caps) {
    var n := if |refs| < caps.perPaper then |refs| else caps.perPaper;
    || taken == refs[..n]
    || (|taken| < n && taken == refs[..|taken|] && refs[|taken|] !in inGraph && works >= caps.total)
  }

  lemma TakenShort<W>(refs: seq<W>, taken: seq<W>, k: nat, inGraph: set<W>, works: nat, caps: Caps)
    requires k < |refs| && k < caps.perPaper && taken == refs[..k] && refs[k] !in inGraph && works >= caps.total
    ensures TakesFrom(refs, taken, inGraph, works, caps)
  {
  }

  lemma AllInSnoc<W>(refs: seq<W>, k: nat, visited: set<W>)
    requires k < |refs|
    ensures refs[..k + 1] == refs[..k] + [refs[k]]
    ensures AllIn(refs[..k + 1], visited) <==> AllIn(refs[..k], visited) && refs[k] in visited
  {
    assert refs[..k + 1] == refs[..k] + [refs[k]];
    assert refs[..k + 1][k] == refs[k];
  }

  /** The first `k` references of one work were taken since the edges, the
      visited works and their number were those given first. */
  ghost predicate Taken<W(!new)>(edges: seq<Edge<W>>, visited: set<W>, n: nat,
                                 after: seq<Edge<W>>, seen: set<W>, m: nat, parent: W, refs: seq<W>, k: nat)
  {
    && k <= |refs| && KeptElsewhere(edges, after, parent) && Targets(after, parent) == refs[..k]
    && AllIn(refs[..k], seen) && (m > n <==> !AllIn(refs[..k], visited))
  }

  lemma TakenMore<W(!new)>(edges: seq<Edge<W>>, visited: set<W>, n: nat, now: seq<Edge<W>>, seen: set<W>, m: nat,
                           after: seq<Edge<W>>, more: set<W>, l: nat, parent: W, refs: seq<W>, k: nat)
    requires Taken(edges, visited, n, now, seen, m, parent, refs, k) && k < |refs|
    requires Cites(now, after, parent, refs[k]) && visited <= seen <= more && refs[k] in more && n <= m <= l
    requires l > m <==> refs[k] !in seen
    requires m > n || seen == visited
    ensures Taken(edges, visited, n, after, more, l, parent, refs, k + 1)
  {
    AllInSnoc(refs, k, more);
    AllInSnoc(refs, k, visited);
  }

  lemma AllInPrefix<W>(refs: seq<W>, k: nat, n: nat, visited: set<W>)
    requires k < n <= |refs|
    ensures AllIn(refs[..n], visited) ==> AllIn(refs[..k], visited) && refs[k] in visited
  {
    assert refs[..n][k] == refs[k];
    assert refs[..k] == refs[..n][..k];
  }

  lemma AllInSome<W>(refs: seq<W>, n: nat, visited: set<W>)
    requires n <= |refs|
    ensures !AllIn(refs[..n], visited) <==> exists k :: 0 <= k < n && refs[k] !in visited
  {
    if k :| 0 <= k < n && refs[k] !in visited {
      assert refs[..n][k] == refs[k];
    }
    if v :| v in refs[..n] && v !in visited {
      var k :| 0 <= k < n && refs[..n][k] == v;
      assert refs[k] == v;
    }
  }

  /** What is taken of the references of one work, and what that does to the
      flag: a prefix of them within the cap on one work; all of them, and all
      are in the graph, if there are no more than that and there was room or
      they were in it anyway. The flag tells exactly when that was not so,
      unless it was up before. */
  predicate Takes<W(==)>(refs: seq<W>, taken: seq<W>, room: bool, visited: set<W>, perPaper: nat,
                         cutBefore: bool, cut: bool)
  {
    var whole := |refs| <= perPaper && (room || AllIn(refs, visited));
    && taken <= refs && |taken| <= perPaper
    && (whole ==> taken == refs && AllIn(refs, visited))
    && (cut <==> cutBefore || !whole)
  }

  /** All references within the cap on one work were taken. */
  lemma TakesEnd<W>(refs: seq<W>, room: bool, visited: set<W>, perPaper: nat, before: bool)
    requires AllIn(refs[..Min(|refs|, perPaper)], visited)
    ensures Takes(refs, refs[..Min(|refs|, perPaper)], room, visited, perPaper, before, before || |refs| > perPaper)
  {
    if |refs| <= perPaper {
      assert refs[..|refs|] == refs;
    }
  }

  /** There was no room for reference `k`. */
  lemma TakesShort<W>(refs: seq<W>, k: nat, visited: set<W>, perPaper: nat, before: bool)
    requires k < |refs| && k < perPaper && refs[k] !in visited
    ensures Takes(refs, refs[..k], false, visited, perPaper, before, true)
  {
    assert refs[k] in refs;
  }

  // ---- The walk ----

  class GraphWalk<W(==, !new)> {
    const seed: W
    var nodes: seq<Node<W>>
    var edges: seq<Edge<W>>
    var visited: set<W>
    var queue: seq<Node<W>>
    var truncated: bool
    /** The depth each visited work was given, and the work it was found from. */
    ghost var depthOf: map<W, nat>
    ghost var foundFrom: map<W, W>

    constructor (seed: W)
      ensures this.seed == seed && nodes == [Node(seed, 0)] && edges == [] && queue == [] && !truncated
      ensures visited == {seed} && depthOf == map[seed := 0] && foundFrom == map[]
    {
      this.seed := seed;
      nodes, edges, visited, queue, truncated := [Node(seed, 0)], [], {seed}, [], false;
      depthOf, foundFrom := map[seed := 0], map[];
    }

    /** What is visited is what is in the graph, and what follows the work at
        `p` is what is queued. */
    ghost predicate Sound(caps: Caps, p: nat)
      reads this
    {
      && nodes != [] && nodes[0] == Node(seed, 0) && visited == depthOf.Keys
      && Levelled(nodes, p) && queue == nodes[p + 1..]
      && Registered(nodes, depthOf) && Linked(seed, edges, depthOf, foundFrom) && WithinCaps(nodes, caps)
    }

    method Pop(caps: Caps, ghost p: nat) returns (next: Node<W>)
      requires Sound(caps, p) && queue != []
      modifies this`queue
      ensures Sound(caps, p + 1) && next == nodes[p + 1]
    {
      LevelledMovesOn(nodes, p);
      next := queue[0];
      queue := queue[1..];
    }

    /** A reference to a work not seen before. */
    method Discover(parent: W, child: W, childDepth: nat, caps: Caps, ghost p: nat)
      requires Sound(caps, p) && nodes[p].id == parent && nodes[p].depth + 1 == childDepth <= Max(1, caps.depth)
      requires child !in visited && |nodes| < caps.total
      modifies this
      ensures Sound(caps, p) && truncated == old(truncated)
      ensures nodes == old(nodes) + [Node(child, childDepth)] && edges == old(edges) + [Edge(parent, child)]
      ensures visited == old(visited) + {child}
      ensures Cites(old(edges), edges, parent, child)
    {
      assert GivenAt(nodes, depthOf, p);
      EdgeAdded(edges, parent, child);
      RegisteredGrows(nodes, depthOf, Node(child, childDepth));
      LevelledGrows(nodes, p, Node(child, childDepth));
      LinkedGrows(seed, edges, depthOf, foundFrom, parent, child);
      WithinCapsGrows(nodes, caps, Node(child, childDepth));
      visited := visited + {child};
      nodes := nodes + [Node(child, childDepth)];
      edges := edges + [Edge(parent, child)];
      queue := queue + [Node(child, childDepth)];
      depthOf := depthOf[child := childDepth];
      foundFrom := foundFrom[child := parent];
    }

    /** A reference to a work already in the graph. */
    method Revisit(parent: W, child: W, caps: Caps, ghost p: nat)
      requires Sound(caps, p) && nodes[p].id == parent && child in visited
      modifies this`edges
      ensures Sound(caps, p) && edges == old(edges) + [Edge(parent, child)]
      ensures Cites(old(edges), edges, parent, child)
    {
      EdgeAdded(edges, parent, child);
      NoneFarBelow(nodes, depthOf, p, child);
      LinkedAgain(seed, edges, depthOf, foundFrom, parent, child);
      edges := edges + [Edge(parent, child)];
    }

    ghost predicate Expanding(parent: W, childDepth: nat, caps: Caps, p: nat)
      reads this
    {
      && Sound(caps, p) && nodes[p].id == parent && nodes[p].depth + 1 == childDepth <= Max(1, caps.depth)
    }

    /** The graph only grew, and not beyond the cap. */
    twostate predicate Grew(caps: Caps)
      reads this
    {
      && old(nodes) <= nodes && old(visited) <= visited
      && (if |nodes| > |old(nodes)| then |nodes| <= caps.total else visited == old(visited))
    }

    /** One reference of the work at `p`; `full` when there is no room for it. */
    method TakeReference(parent: W, child: W, childDepth: nat, caps: Caps, ghost p: nat) returns (full: bool)
      requires Expanding(parent, childDepth, caps, p)
      modifies this
      ensures Expanding(parent, childDepth, caps, p) && Grew(caps)
      ensures full ==> truncated && edges == old(edges) && |nodes| >= caps.total && child !in visited
      ensures !full ==> truncated == old(truncated) && child in visited && Cites(old(edges), edges, parent, child)
      ensures !full ==> (|nodes| > |old(nodes)| <==> child !in old(visited))
    {
      if child in visited {
        Revisit(parent, child, caps, p);
        return false;
      }
      if |nodes| >= caps.total {
        truncated := true;
        return true;
      }
      Discover(parent, child, childDepth, caps, p);
      return false;
    }

    /** Take up to `caps.perPaper` references of the work at `p`. The edges out
        of it become the references taken, in order. */
    method EnqueueChildren(parent: W, refs: seq<W>, childDepth: nat, caps: Caps, ghost p: nat)
      requires Expanding(parent, childDepth, caps, p) && Targets(edges, parent) == []
      modifies this
      ensures Sound(caps, p) && Grew(caps) && KeptElsewhere(old(edges), edges, parent)
      ensures Takes(refs, Targets(edges, parent), |nodes| < caps.total, visited, caps.perPaper,
                    old(truncated), truncated)
      ensures TakesFrom(refs, Targets(edges, parent), visited, |nodes|, caps)
      ensures |nodes| > |old(nodes)| <==>
              |old(nodes)| < caps.total && exists k :: 0 <= k < Min(|refs|, caps.perPaper) && refs[k] !in old(visited)
    {
      if |refs| > caps.perPaper {
        truncated := true;
      }
      var n := Min(|refs|, caps.perPaper);
      ghost var edges0, visited0, n0 := edges, visited, |nodes|;
      AllInSome(refs, n, visited);
      for k := 0 to n
        invariant Expanding(parent, childDepth, caps, p) && Grew(caps)
        invariant Taken(edges0, visited0, n0, edges, visited, |nodes|, parent, refs, k)
        invariant truncated == (old(truncated) || |refs| > caps.perPaper)
      {
        ghost var now, seen, m := edges, visited, |nodes|;
        var full := TakeReference(parent, refs[k], childDepth, caps, p);
        if full {
          AllInPrefix(refs, k, n, visited0);
          TakesShort(refs, k, visited, caps.perPaper, old(truncated));
          TakenShort(refs, Targets(edges, parent), k, visited, |nodes|, caps);
          return;
        }
        TakenMore(edges0, visited0, n0, now, seen, m, edges, visited, |nodes|, parent, refs, k);
      }
      TakesEnd(refs, |nodes| < caps.total, visited, caps.perPaper, old(truncated));
    }
  }

  // ---- The expansion ----

  /** The works the walk took from the queue or started with, up to `p`: the
      edges out of each are its references, in order, as far as they were
      taken; nothing leads out of the others. */
  ghost predicate Expanded<W(!new)>(nodes: seq<Node<W>>, edges: seq<Edge<W>>, visited: set<W>, truncated: bool,
                                    p: nat, cited: W -> seq<W>, caps: Caps)
  {
    && (forall i :: 0 <= i < |nodes| ==> ExpandedNth(nodes, i, edges, visited, truncated, p, cited, caps))
    && (forall u :: u !in visited ==> Targets(edges, u) == [])
  }

  ghost predicate ExpandedNth<W(!new)>(nodes: seq<Node<W>>, i: int, edges: seq<Edge<W>>, visited: set<W>,
                                       truncated: bool, p: nat, cited: W -> seq<W>, caps: Caps)
    requires 0 <= i < |nodes|
  {
    ExpandedAt(nodes[i].id, edges, visited, truncated, i <= p, cited, caps)
  }

  ghost predicate ExpandedAt<W(!new)>(u: W, edges: seq<Edge<W>>, visited: set<W>, truncated: bool,
                                      done: bool, cited: W -> seq<W>, caps: Caps)
  {
    && Targets(edges, u) <= cited(u) && |Targets(edges, u)| <= caps.perPaper
    && (!done ==> Targets(edges, u) == [])
    && (done && !truncated ==> Targets(edges, u) == cited(u) && forall v :: v in cited(u) ==> v in visited)
  }

  /** Nothing but the depth cap stands in the way of a walk: there is room for
      more works, there was for the seed's references, no work has more of
      them than its cap, and every work that was asked for could be read. */
  ghost predicate Unhampered<W>(caps: Caps, seed: W, seedRefs: seq<W>, oracle: W -> Fetched<W>,
                                nodes: seq<Node<W>>, asked: seq<W>)
  {
    && |nodes| < Max(2, caps.total)
    && (|nodes| == 1 ==> forall v :: v in seedRefs ==> v == seed)
    && |seedRefs| <= caps.perPaper
    && (forall a :: a in asked ==> ReadInFull(caps, oracle(a)))
  }

  /** Why a walk stops short. */
  ghost predicate CutShort<W>(caps: Caps, seed: W, seedRefs: seq<W>, oracle: W -> Fetched<W>,
                              nodes: seq<Node<W>>, asked: seq<W>)
  {
    || (exists i :: 1 <= i < |nodes| && nodes[i].depth >= caps.depth)
    || !Unhampered(caps, seed, seedRefs, oracle, nodes, asked)
  }

  predicate ReadInFull<W>(caps: Caps, f: Fetched<W>) {
    f.References? && |f.refs| <= caps.perPaper
  }

  /** No work is asked for twice, and the seed not at all. */
  ghost predicate AskedOnce<W>(nodes: seq<Node<W>>, p: nat, asked: seq<W>)
    requires p < |nodes|
  {
    && (forall j, k :: 0 <= j < k < |asked| ==> asked[j] != asked[k])
    && (forall a :: a in asked ==> a in Ids(nodes[1..p + 1]))
  }

  ghost function Ids<W>(nodes: seq<Node<W>>): set<W> {
    set n | n in nodes :: n.id
  }

  /** None of the reasons to stop short has come up so far. */
  ghost predicate Uncut<W>(caps: Caps, seed: W, seedRefs: seq<W>, oracle: W -> Fetched<W>,
                           nodes: seq<Node<W>>, p: nat, asked: seq<W>)
  {
    && p < |nodes|
    && (forall i :: 1 <= i <= p ==> nodes[i].depth < caps.depth)
    && (p == |nodes| - 1 ==> |nodes| < Max(2, caps.total))
    && (|nodes| == 1 ==> forall v :: v in seedRefs ==> v == seed)
    && |seedRefs| <= caps.perPaper
    && (forall a :: a in asked ==> ReadInFull(caps, oracle(a)))
  }

  /** A work above the depth cap has all its references, and they are in. */
  ghost predicate WholeAt<W(!new)>(nodes: seq<Node<W>>, i: int, edges: seq<Edge<W>>, visited: set<W>,
                                   cited: W -> seq<W>, caps: Caps)
    requires 0 <= i < |nodes|
  {
    i == 0 || nodes[i].depth < caps.depth ==>
      Targets(edges, nodes[i].id) == cited(nodes[i].id) && forall v :: v in cited(nodes[i].id) ==> v in visited
  }

  ghost predicate Whole<W(!new)>(nodes: seq<Node<W>>, edges: seq<Edge<W>>, visited: set<W>, p: nat,
                                 cited: W -> seq<W>, caps: Caps)
  {
    p < |nodes| && forall i :: 0 <= i <= p ==> WholeAt(nodes, i, edges, visited, cited, caps)
  }

  lemma WholeAfter<W(!new)>(nodes: seq<Node<W>>, edges: seq<Edge<W>>, visited: set<W>, p: nat,
                            more: seq<Node<W>>, after: seq<Edge<W>>, seen: set<W>, cited: W -> seq<W>, caps: Caps)
    requires Whole(nodes, edges, visited, p, cited, caps)
    requires p + 1 < |nodes| && nodes <= more && visited <= seen && Distinct(more)
    requires KeptElsewhere(edges, after, nodes[p + 1].id)
    requires WholeAt(more, p + 1, after, seen, cited, caps)
    ensures Whole(more, after, seen, p + 1, cited, caps)
  {
    var q := p + 1;
    forall i | 0 <= i <= q ensures WholeAt(more, i, after, seen, cited, caps) {
      if i < q {
        assert WholeAt(nodes, i, edges, visited, cited, caps);
        assert Apart(more, i, q) && more[i] == nodes[i] && more[q] == nodes[q];
        assert Targets(after, more[i].id) == Targets(edges, more[i].id);
      }
    }
  }

  lemma WholeSkips<W(!new)>(nodes: seq<Node<W>>, edges: seq<Edge<W>>, visited: set<W>, p: nat,
                            cited: W -> seq<W>, caps: Caps)
    requires Whole(nodes, edges, visited, p, cited, caps)
    requires p + 1 < |nodes| && nodes[p + 1].depth >= caps.depth
    ensures Whole(nodes, edges, visited, p + 1, cited, caps)
  {
    var q := p + 1;
    forall i | 0 <= i <= q ensures WholeAt(nodes, i, edges, visited, cited, caps) {
      assert i < q ==> WholeAt(nodes, i, edges, visited, cited, caps);
    }
  }

  lemma ExpandedSkips<W(!new)>(nodes: seq<Node<W>>, edges: seq<Edge<W>>, visited: set<W>, truncated: bool,
                               p: nat, cited: W -> seq<W>, caps: Caps)
    requires Expanded(nodes, edges, visited, truncated, p, cited, caps)
    ensures Expanded(nodes, edges, visited, true, p + 1, cited, caps)
  {
    var q := p + 1;
    forall i | 0 <= i < |nodes| ensures ExpandedNth(nodes, i, edges, visited, true, q, cited, caps) {
      assert ExpandedNth(nodes, i, edges, visited, truncated, p, cited, caps);
    }
  }

  /** One more work expanded: what held of the others still holds. */
  lemma ExpandedGrows<W(!new)>(nodes: seq<Node<W>>, edges: seq<Edge<W>>, visited: set<W>, truncated: bool, p: nat,
                               more: seq<Node<W>>, after: seq<Edge<W>>, seen: set<W>, cut: bool,
                               cited: W -> seq<W>, caps: Caps)
    requires Expanded(nodes, edges, visited, truncated, p, cited, caps)
    requires p + 1 < |nodes| && nodes <= more && visited <= seen && (truncated ==> cut)
    requires nodes[p + 1].id in visited && Distinct(more)
    requires forall i :: |nodes| <= i < |more| ==> more[i].id !in visited
    requires KeptElsewhere(edges, after, nodes[p + 1].id)
    requires ExpandedAt(nodes[p + 1].id, after, seen, cut, true, cited, caps)
    ensures Expanded(more, after, seen, cut, p + 1, cited, caps)
  {
    var u, q := nodes[p + 1].id, p + 1;
    forall i | 0 <= i < |more| ensures ExpandedNth(more, i, after, seen, cut, q, cited, caps) {
      if i < |nodes| && i != p + 1 {
        assert more[i] == nodes[i] && more[p + 1] == nodes[p + 1];
        assert if i < p + 1 then Apart(more, i, p + 1) else Apart(more, p + 1, i);
        assert ExpandedNth(nodes, i, edges, visited, truncated, p, cited, caps);
        assert Targets(after, more[i].id) == Targets(edges, more[i].id);
      } else if i >= |nodes| {
        assert Targets(after, more[i].id) == Targets(edges, more[i].id);
      }
    }
  }

  /** What joined the graph was not in it. */
  lemma JoinedIsNew<W>(nodes: seq<Node<W>>, depthOf: map<W, nat>, more: seq<Node<W>>, deeper: map<W, nat>, i: nat)
    requires Registered(nodes, depthOf) && Registered(more, deeper) && nodes <= more
    requires |nodes| <= i < |more|
    ensures more[i].id !in depthOf
  {
    forall v | v in depthOf ensures v != more[i].id {
      assert Listed(nodes, depthOf, v);
      var j :| 0 <= j < |nodes| && nodes[j] == Node(v, depthOf[v]);
      assert more[j].id == v && Apart(more, j, i);
    }
  }

  lemma ExpandedAfter<W(!new)>(nodes: seq<Node<W>>, depthOf: map<W, nat>, edges: seq<Edge<W>>, truncated: bool, p: nat,
                               more: seq<Node<W>>, deeper: map<W, nat>, after: seq<Edge<W>>, cut: bool,
                               cited: W -> seq<W>, caps: Caps)
    requires Registered(nodes, depthOf) && Registered(more, deeper)
    requires Expanded(nodes, edges, depthOf.Keys, truncated, p, cited, caps)
    requires p + 1 < |nodes| && nodes <= more && depthOf.Keys <= deeper.Keys && (truncated ==> cut)
    requires KeptElsewhere(edges, after, nodes[p + 1].id)
    requires ExpandedAt(nodes[p + 1].id, after, deeper.Keys, cut, true, cited, caps)
    ensures Expanded(more, after, deeper.Keys, cut, p + 1, cited, caps)
  {
    assert GivenAt(nodes, depthOf, p + 1);
    forall i | |nodes| <= i < |more| ensures more[i].id !in depthOf.Keys {
      JoinedIsNew(nodes, depthOf, more, deeper, i);
    }
    ExpandedGrows(nodes, edges, depthOf.Keys, truncated, p, more, after, deeper.Keys, cut, cited, caps);
  }

  /** An answer that could be read was followed. */
  ghost predicate FollowedUp<W>(oracle: W -> Fetched<W>, edges: seq<Edge<W>>, inGraph: set<W>, works: nat,
                                caps: Caps, a: W)
  {
    oracle(a).References? ==> TakesFrom(oracle(a).refs, Targets(edges, a), inGraph, works, caps)
  }

  /** A work above the depth cap was asked for while there was room. */
  ghost predicate AskedIfAbove<W>(nodes: seq<Node<W>>, i: int, asked: seq<W>, caps: Caps)
    requires 0 <= i < |nodes|
  {
    nodes[i].depth < caps.depth ==> nodes[i].id in asked || |nodes| >= caps.total
  }

  /** No other was. */
  ghost predicate AboveIfAsked<W>(nodes: seq<Node<W>>, i: int, asked: seq<W>, caps: Caps)
    requires 0 <= i < |nodes|
  {
    nodes[i].id in asked ==> nodes[i].depth < caps.depth
  }

  /** Edges lead only out of the seed and out of works with an answer. */
  ghost predicate SilentElse<W(!new)>(seed: W, oracle: W -> Fetched<W>, edges: seq<Edge<W>>, asked: seq<W>) {
    forall u :: u != seed && !(u in asked && oracle(u).References?) ==> Targets(edges, u) == []
  }

  ghost predicate Answered<W(!new)>(caps: Caps, seed: W, seedRefs: seq<W>, oracle: W -> Fetched<W>,
                                    nodes: seq<Node<W>>, edges: seq<Edge<W>>, visited: set<W>, p: nat, asked: seq<W>)
  {
    && p < |nodes|
    && TakesFrom(seedRefs, Targets(edges, seed), visited, |nodes|, caps)
    && (forall k :: 0 <= k < |asked| ==> FollowedUp(oracle, edges, visited, |nodes|, caps, asked[k]))
    && (forall i :: 1 <= i <= p ==> AskedIfAbove(nodes, i, asked, caps))
    && (forall i :: 1 <= i < |nodes| ==> AboveIfAsked(nodes, i, asked, caps))
    && SilentElse(seed, oracle, edges, asked)
  }

  /** The next work is not asked for, or its answer cannot be read. */
  lemma AnsweredSkips<W(!new)>(caps: Caps, seed: W, seedRefs: seq<W>, oracle: W -> Fetched<W>,
                               nodes: seq<Node<W>>, edges: seq<Edge<W>>, visited: set<W>, p: nat,
                               asked: seq<W>, more: seq<W>)
    requires Answered(caps, seed, seedRefs, oracle, nodes, edges, visited, p, asked)
    requires p + 1 < |nodes| && Distinct(nodes)
    requires || (more == asked && (nodes[p + 1].depth >= caps.depth || |nodes| >= caps.total))
             || (more == asked + [nodes[p + 1].id] && nodes[p + 1].depth < caps.depth
                 && !oracle(nodes[p + 1].id).References?)
    ensures Answered(caps, seed, seedRefs, oracle, nodes, edges, visited, p + 1, more)
  {
    var q := p + 1;
    assert more != asked ==> more[|asked|] == nodes[q].id;
    forall k | 0 <= k < |more| ensures FollowedUp(oracle, edges, visited, |nodes|, caps, more[k]) {
      assert k < |asked| ==> FollowedUp(oracle, edges, visited, |nodes|, caps, asked[k]);
    }
    forall i | 1 <= i <= q ensures AskedIfAbove(nodes, i, more, caps) {
      assert i < q ==> AskedIfAbove(nodes, i, asked, caps);
    }
    forall i | 1 <= i < |nodes| ensures AboveIfAsked(nodes, i, more, caps) {
      assert AboveIfAsked(nodes, i, asked, caps);
      assert i < q ==> Apart(nodes, i, q);
      assert i > q ==> Apart(nodes, q, i);
    }
    forall u | u != seed && !(u in more && oracle(u).References?) ensures Targets(edges, u) == [] {
      assert u in asked ==> u in more;
    }
  }

  /** The next work's answer has joined the graph. */
  lemma AnsweredAfter<W(!new)>(caps: Caps, seed: W, seedRefs: seq<W>, oracle: W -> Fetched<W>, refs: seq<W>,
                               nodes: seq<Node<W>>, depthOf: map<W, nat>, edges: seq<Edge<W>>, p: nat, asked: seq<W>,
                               more: seq<Node<W>>, deeper: map<W, nat>, after: seq<Edge<W>>)
    requires Answered(caps, seed, seedRefs, oracle, nodes, edges, depthOf.Keys, p, asked)
    requires Registered(nodes, depthOf) && Registered(more, deeper) && AskedOnce(nodes, p, asked)
    requires p + 1 < |nodes| < caps.total && nodes <= more && nodes[p + 1].depth < caps.depth
    requires var u := nodes[p + 1].id;
             && u != seed && oracle(u) == References(refs) && KeptElsewhere(edges, after, u)
             && TakesFrom(refs, Targets(after, u), deeper.Keys, |more|, caps)
    ensures Answered(caps, seed, seedRefs, oracle, more, after, deeper.Keys, p + 1, asked + [nodes[p + 1].id])
  {
    var q, u := p + 1, nodes[p + 1].id;
    var all := asked + [u];
    AskedAreNamed(nodes, depthOf, p, asked);
    forall k | 0 <= k < |all| ensures FollowedUp(oracle, after, deeper.Keys, |more|, caps, all[k]) {
      if k < |asked| {
        assert FollowedUp(oracle, edges, depthOf.Keys, |nodes|, caps, asked[k]);
        AskedIsEarlier(nodes, p, asked, k);
      }
    }
    forall i | 1 <= i <= q ensures AskedIfAbove(more, i, all, caps) {
      assert i < q ==> AskedIfAbove(nodes, i, asked, caps);
      assert all[|asked|] == u && more[i] == nodes[i];
    }
    forall i | 1 <= i < |more| ensures AboveIfAsked(more, i, all, caps) {
      if i < |nodes| {
        assert AboveIfAsked(nodes, i, asked, caps) && more[i] == nodes[i];
        assert i < q ==> Apart(nodes, i, q);
        assert i > q ==> Apart(nodes, q, i);
      } else {
        JoinedIsNew(nodes, depthOf, more, deeper, i);
        assert GivenAt(nodes, depthOf, q);
      }
    }
    forall w | w != seed && !(w in all && oracle(w).References?) ensures Targets(after, w) == [] {
      assert all[|asked|] == u;
      assert w in asked ==> w in all;
    }
  }

  lemma AskedAreNamed<W>(nodes: seq<Node<W>>, depthOf: map<W, nat>, p: nat, asked: seq<W>)
    requires p < |nodes| && Registered(nodes, depthOf) && AskedOnce(nodes, p, asked)
    ensures forall a :: a in asked ==> a in depthOf
  {
    forall a | a in asked ensures a in depthOf {
      var n :| n in nodes[1..p + 1] && n.id == a;
      var i :| 0 <= i < p && nodes[1..p + 1][i] == n;
      assert GivenAt(nodes, depthOf, i + 1);
    }
  }

  lemma AskedIsEarlier<W>(nodes: seq<Node<W>>, p: nat, asked: seq<W>, k: nat)
    requires p + 1 < |nodes| && Distinct(nodes) && AskedOnce(nodes, p, asked) && k < |asked|
    ensures asked[k] != nodes[p + 1].id
  {
    assert asked[k] in asked;
    var n :| n in nodes[1..p + 1] && n.id == asked[k];
    var i :| 0 <= i < p && nodes[1..p + 1][i] == n;
    assert Apart(nodes, i + 1, p + 1);
  }

  lemma AskedGrows<W>(nodes: seq<Node<W>>, p: nat, asked: seq<W>)
    requires p + 1 < |nodes| && AskedOnce(nodes, p, asked)
    requires Distinct(nodes)
    ensures AskedOnce(nodes, p + 1, asked) && AskedOnce(nodes, p + 1, asked + [nodes[p + 1].id])
  {
    var u, before, after := nodes[p + 1].id, nodes[1..p + 1], nodes[1..p + 2];
    assert after == before + [nodes[p + 1]];
    forall n | n in before ensures n.id != u {
      var i :| 0 <= i < |before| && before[i] == n;
      assert nodes[i + 1] == n && Apart(nodes, i + 1, p + 1);
    }
    assert u !in Ids(before);
    forall n | n in before ensures n in after {
    }
    assert after[p] == nodes[p + 1];
    assert u in Ids(after);
    var more := asked + [u];
    forall j, k | 0 <= j < k < |more| ensures more[j] != more[k] {
      assert more[j] in asked && (k == |asked| || more[k] in asked);
    }
  }

  /** The reasons only add up while the graph grows. */
  lemma CutShortGrows<W>(caps: Caps, seed: W, seedRefs: seq<W>, oracle: W -> Fetched<W>,
                         nodes: seq<Node<W>>, asked: seq<W>, more: seq<Node<W>>, askedMore: seq<W>)
    requires CutShort(caps, seed, seedRefs, oracle, nodes, asked)
    requires nodes <= more && asked <= askedMore && (|nodes| == 1 ==> |more| == 1)
    ensures CutShort(caps, seed, seedRefs, oracle, more, askedMore)
  {
    if i :| 1 <= i < |nodes| && nodes[i].depth >= caps.depth {
      assert more[i].depth >= caps.depth;
    }
  }

  lemma CutShortWhenGivenUp<W>(caps: Caps, seed: W, seedRefs: seq<W>, oracle: W -> Fetched<W>,
                               nodes: seq<Node<W>>, asked: seq<W>, a: W)
    requires !ReadInFull(caps, oracle(a))
    ensures CutShort(caps, seed, seedRefs, oracle, nodes, asked + [a])
  {
    assert (asked + [a])[|asked|] == a;
  }

  /** What holds between two works of the walk, `p` being the last one taken
      from the queue and `done` the last one dealt with. */
  ghost predicate Between<W(!new)>(walk: GraphWalk<W>, caps: Caps, seedRefs: seq<W>, oracle: W -> Fetched<W>,
                                   p: nat, done: nat, asked: seq<W>)
    reads walk
  {
    && walk.Sound(caps, p) && done <= p
    && Expanded(walk.nodes, walk.edges, walk.visited, walk.truncated, done,
                CitedBy(walk.seed, seedRefs, oracle), caps)
    && AskedOnce(walk.nodes, done, asked)
    && (forall a :: a in asked ==> !oracle(a).NotLogged?)
    && (Unhampered(caps, walk.seed, seedRefs, oracle, walk.nodes, asked) ==>
          Whole(walk.nodes, walk.edges, walk.visited, done, CitedBy(walk.seed, seedRefs, oracle), caps))
    && Answered(caps, walk.seed, seedRefs, oracle, walk.nodes, walk.edges, walk.visited, done, asked)
    && (if walk.truncated then CutShort(caps, walk.seed, seedRefs, oracle, walk.nodes, asked)
        else Uncut(caps, walk.seed, seedRefs, oracle, walk.nodes, done, asked))
  }

  ghost predicate Going<W(!new)>(walk: GraphWalk<W>, caps: Caps, seedRefs: seq<W>, oracle: W -> Fetched<W>,
                                 p: nat, asked: seq<W>)
    reads walk
  {
    Between(walk, caps, seedRefs, oracle, p, p, asked)
  }

  method Begin<W(==, !new)>(caps: Caps, seed: W, seedRefs: seq<W>, oracle: W -> Fetched<W>)
    returns (walk: GraphWalk<W>)
    ensures fresh(walk) && walk.seed == seed && Going(walk, caps, seedRefs, oracle, 0, [])
    ensures |walk.nodes| > 1 <==>
            caps.total > 1 && exists k :: 0 <= k < Min(|seedRefs|, caps.perPaper) && seedRefs[k] != seed
  {
    walk := new GraphWalk(seed);
    ghost var cited := CitedBy(seed, seedRefs, oracle);
    walk.EnqueueChildren(seed, seedRefs, 1, caps, 0);
    var nodes, edges := walk.nodes, walk.edges;
    forall u | u != seed ensures Targets(edges, u) == [] {
      assert Targets<W>([], u) == [];
    }
    assert cited(seed) == seedRefs;
    forall i | 0 <= i < |nodes|
      ensures ExpandedNth(nodes, i, edges, walk.visited, walk.truncated, 0, cited, caps)
    {
      assert i > 0 ==> Apart(nodes, 0, i);
    }
  }

  /** The work taken from the queue is left unexpanded. */
  method Skip<W(==, !new)>(walk: GraphWalk<W>, caps: Caps, ghost seedRefs: seq<W>, ghost oracle: W -> Fetched<W>,
                           ghost p: nat, ghost asked: seq<W>, ghost more: seq<W>)
    requires Between(walk, caps, seedRefs, oracle, p + 1, p, asked)
    requires AskedOnce(walk.nodes, p + 1, more) && forall a :: a in more ==> !oracle(a).NotLogged?
    requires var next := walk.nodes[p + 1];
             || (more == asked && (next.depth >= caps.depth || |walk.nodes| >= Max(2, caps.total)))
             || (more == asked + [next.id] && next.depth < caps.depth && !oracle(next.id).References?)
    modifies walk`truncated
    ensures Going(walk, caps, seedRefs, oracle, p + 1, more) && walk.truncated
  {
    ghost var cited := CitedBy(walk.seed, seedRefs, oracle);
    ExpandedSkips(walk.nodes, walk.edges, walk.visited, walk.truncated, p, cited, caps);
    AnsweredSkips(caps, walk.seed, seedRefs, oracle, walk.nodes, walk.edges, walk.visited, p, asked, more);
    assert more != asked ==> more[|asked|] == walk.nodes[p + 1].id;
    if Unhampered(caps, walk.seed, seedRefs, oracle, walk.nodes, more) {
      WholeSkips(walk.nodes, walk.edges, walk.visited, p, cited, caps);
    }
    walk.truncated := true;
  }

  /** The flag after one more work is read tells whether a reason came up. */
  lemma FlagAfter<W>(caps: Caps, seed: W, seedRefs: seq<W>, oracle: W -> Fetched<W>, nodes: seq<Node<W>>, p: nat,
                     asked: seq<W>, before: bool, more: seq<Node<W>>, after: bool)
    requires p + 1 < |nodes| && nodes <= more && |nodes| < caps.total && nodes[p + 1].depth < caps.depth
    requires if before then CutShort(caps, seed, seedRefs, oracle, nodes, asked)
             else Uncut(caps, seed, seedRefs, oracle, nodes, p, asked)
    requires before ==> after
    requires !after ==> ReadInFull(caps, oracle(nodes[p + 1].id))
    requires after && !before ==> !ReadInFull(caps, oracle(nodes[p + 1].id)) || |more| >= caps.total
    ensures if after then CutShort(caps, seed, seedRefs, oracle, more, asked + [nodes[p + 1].id])
            else Uncut(caps, seed, seedRefs, oracle, more, p + 1, asked + [nodes[p + 1].id])
  {
    var u := nodes[p + 1].id;
    if before {
      CutShortGrows(caps, seed, seedRefs, oracle, nodes, asked, more, asked + [u]);
    } else if after && !ReadInFull(caps, oracle(u)) {
      CutShortWhenGivenUp(caps, seed, seedRefs, oracle, more, asked, u);
    }
  }

  lemma WholeWithAnswer<W(!new)>(caps: Caps, seed: W, seedRefs: seq<W>, oracle: W -> Fetched<W>,
                                 nodes: seq<Node<W>>, edges: seq<Edge<W>>, visited: set<W>, p: nat, asked: seq<W>,
                                 more: seq<Node<W>>, after: seq<Edge<W>>, seen: set<W>, refs: seq<W>)
    requires Unhampered(caps, seed, seedRefs, oracle, nodes, asked) ==>
             Whole(nodes, edges, visited, p, CitedBy(seed, seedRefs, oracle), caps)
    requires p + 1 < |nodes| < caps.total && nodes <= more && visited <= seen && Distinct(more)
    requires var u := nodes[p + 1].id;
             && u != seed && oracle(u) == References(refs) && KeptElsewhere(edges, after, u)
             && (|refs| <= caps.perPaper && |more| < caps.total ==>
                   Targets(after, u) == refs && forall v :: v in refs ==> v in seen)
    ensures Unhampered(caps, seed, seedRefs, oracle, more, asked + [nodes[p + 1].id]) ==>
            Whole(more, after, seen, p + 1, CitedBy(seed, seedRefs, oracle), caps)
  {
    var u, cited := nodes[p + 1].id, CitedBy(seed, seedRefs, oracle);
    if Unhampered(caps, seed, seedRefs, oracle, more, asked + [u]) {
      assert (asked + [u])[|asked|] == u && cited(u) == refs;
      forall a | a in asked ensures ReadInFull(caps, oracle(a)) {
        assert a in asked + [u];
      }
      WholeAfter(nodes, edges, visited, p, more, after, seen, cited, caps);
    }
  }

  /** What holds between two works still does when the answer for the next one
      has joined the graph. */
  lemma AnswerJoins<W(!new)>(caps: Caps, seed: W, seedRefs: seq<W>, oracle: W -> Fetched<W>, refs: seq<W>,
                             nodes: seq<Node<W>>, depthOf: map<W, nat>, edges: seq<Edge<W>>, cut: bool,
                             p: nat, asked: seq<W>,
                             more: seq<Node<W>>, deeper: map<W, nat>, after: seq<Edge<W>>, cutAfter: bool)
    requires Registered(nodes, depthOf) && Registered(more, deeper) && depthOf.Keys <= deeper.Keys
    requires p + 1 < |nodes| < caps.total && nodes <= more && nodes[0].id == seed && nodes[p + 1].depth < caps.depth
    requires Expanded(nodes, edges, depthOf.Keys, cut, p, CitedBy(seed, seedRefs, oracle), caps)
    requires AskedOnce(nodes, p, asked)
    requires Unhampered(caps, seed, seedRefs, oracle, nodes, asked) ==>
             Whole(nodes, edges, depthOf.Keys, p, CitedBy(seed, seedRefs, oracle), caps)
    requires if cut then CutShort(caps, seed, seedRefs, oracle, nodes, asked)
             else Uncut(caps, seed, seedRefs, oracle, nodes, p, asked)
    requires oracle(nodes[p + 1].id) == References(refs) && KeptElsewhere(edges, after, nodes[p + 1].id)
    requires Takes(refs, Targets(after, nodes[p + 1].id), |more| < caps.total, deeper.Keys, caps.perPaper,
                   cut, cutAfter)
    requires TakesFrom(refs, Targets(after, nodes[p + 1].id), deeper.Keys, |more|, caps)
    requires Answered(caps, seed, seedRefs, oracle, nodes, edges, depthOf.Keys, p, asked)
    ensures Answered(caps, seed, seedRefs, oracle, more, after, deeper.Keys, p + 1, asked + [nodes[p + 1].id])
    ensures var all, cited := asked + [nodes[p + 1].id], CitedBy(seed, seedRefs, oracle);
            && Expanded(more, after, deeper.Keys, cutAfter, p + 1, cited, caps)
            && AskedOnce(more, p + 1, all)
            && (Unhampered(caps, seed, seedRefs, oracle, more, all) ==>
                  Whole(more, after, deeper.Keys, p + 1, cited, caps))
            && (if cutAfter then CutShort(caps, seed, seedRefs, oracle, more, all)
                else Uncut(caps, seed, seedRefs, oracle, more, p + 1, all))
  {
    var u, cited := nodes[p + 1].id, CitedBy(seed, seedRefs, oracle);
    assert Apart(nodes, 0, p + 1);
    assert cited(u) == refs;
    assert ExpandedAt(u, after, deeper.Keys, cutAfter, true, cited, caps);
    ExpandedAfter(nodes, depthOf, edges, cut, p, more, deeper, after, cutAfter, cited, caps);
    FlagAfter(caps, seed, seedRefs, oracle, nodes, p, asked, cut, more, cutAfter);
    WholeWithAnswer(caps, seed, seedRefs, oracle, nodes, edges, depthOf.Keys, p, asked, more, after, deeper.Keys, refs);
    AnsweredAfter(caps, seed, seedRefs, oracle, refs, nodes, depthOf, edges, p, asked, more, deeper, after);
    AskedGrows(nodes, p, asked);
    AskedStands(nodes, more, p + 1, asked + [u]);
  }

  /** Nothing was taken of the work on its turn, and it is ready to be expanded. */
  lemma OnItsTurn<W(!new)>(walk: GraphWalk<W>, next: Node<W>, caps: Caps, seedRefs: seq<W>, oracle: W -> Fetched<W>,
                           p: nat, asked: seq<W>)
    requires Between(walk, caps, seedRefs, oracle, p + 1, p, asked) && next == walk.nodes[p + 1]
    requires next.depth < caps.depth
    ensures walk.Expanding(next.id, next.depth + 1, caps, p + 1) && Targets(walk.edges, next.id) == []
    ensures Standing(caps, walk.seed, seedRefs, oracle, walk.nodes, walk.depthOf, walk.edges, walk.truncated, p, asked)
  {
    assert ExpandedNth(walk.nodes, p + 1, walk.edges, walk.visited, walk.truncated, p,
                       CitedBy(walk.seed, seedRefs, oracle), caps);
  }

  /** The state of a walk whose works up to `p` were dealt with. */
  ghost predicate Standing<W(!new)>(caps: Caps, seed: W, seedRefs: seq<W>, oracle: W -> Fetched<W>, nodes: seq<Node<W>>,
                                    depthOf: map<W, nat>, edges: seq<Edge<W>>, cut: bool, p: nat, asked: seq<W>)
  {
    && Registered(nodes, depthOf) && p < |nodes| && nodes[0].id == seed
    && Expanded(nodes, edges, depthOf.Keys, cut, p, CitedBy(seed, seedRefs, oracle), caps)
    && AskedOnce(nodes, p, asked) && (forall a :: a in asked ==> !oracle(a).NotLogged?)
    && (Unhampered(caps, seed, seedRefs, oracle, nodes, asked) ==>
          Whole(nodes, edges, depthOf.Keys, p, CitedBy(seed, seedRefs, oracle), caps))
    && Answered(caps, seed, seedRefs, oracle, nodes, edges, depthOf.Keys, p, asked)
    && (if cut then CutShort(caps, seed, seedRefs, oracle, nodes, asked)
        else Uncut(caps, seed, seedRefs, oracle, nodes, p, asked))
  }

  /** When its references have joined the graph, the walk goes on. */
  lemma AnswerTaken<W(!new)>(walk: GraphWalk<W>, caps: Caps, seedRefs: seq<W>, oracle: W -> Fetched<W>, refs: seq<W>,
                             nodes: seq<Node<W>>, depthOf: map<W, nat>, edges: seq<Edge<W>>, cut: bool,
                             p: nat, asked: seq<W>)
    requires Standing(caps, walk.seed, seedRefs, oracle, nodes, depthOf, edges, cut, p, asked)
    requires walk.Sound(caps, p + 1) && depthOf.Keys <= walk.visited && nodes <= walk.nodes
    requires p + 1 < |nodes| < caps.total && nodes[p + 1].depth < caps.depth
    requires oracle(nodes[p + 1].id) == References(refs) && KeptElsewhere(edges, walk.edges, nodes[p + 1].id)
    requires Takes(refs, Targets(walk.edges, nodes[p + 1].id), |walk.nodes| < caps.total, walk.visited, caps.perPaper,
                   cut, walk.truncated)
    requires TakesFrom(refs, Targets(walk.edges, nodes[p + 1].id), walk.visited, |walk.nodes|, caps)
    ensures Going(walk, caps, seedRefs, oracle, p + 1, asked + [nodes[p + 1].id])
  {
    AnswerJoins(caps, walk.seed, seedRefs, oracle, refs, nodes, depthOf, edges, cut, p, asked,
                walk.nodes, walk.depthOf, walk.edges, walk.truncated);
  }

  /** The references of the work taken from the queue join the graph. */
  method TakeAnswer<W(==, !new)>(walk: GraphWalk<W>, next: Node<W>, refs: seq<W>, caps: Caps, ghost seedRefs: seq<W>,
                                 ghost oracle: W -> Fetched<W>, ghost p: nat, ghost asked: seq<W>)
    requires Standing(caps, walk.seed, seedRefs, oracle, walk.nodes, walk.depthOf, walk.edges, walk.truncated, p, asked)
    requires walk.Expanding(next.id, next.depth + 1, caps, p + 1) && Targets(walk.edges, next.id) == []
    requires next == walk.nodes[p + 1] && oracle(next.id) == References(refs)
    requires next.depth < caps.depth && |walk.nodes| < caps.total
    modifies walk
    ensures Going(walk, caps, seedRefs, oracle, p + 1, asked + [next.id])
    ensures |walk.nodes| >= |old(walk.nodes)|
  {
    ghost var nodes, edges, cut, depthOf := walk.nodes, walk.edges, walk.truncated, walk.depthOf;
    walk.EnqueueChildren(next.id, refs, next.depth + 1, caps, p + 1);
    AnswerTaken(walk, caps, seedRefs, oracle, refs, nodes, depthOf, edges, cut, p, asked);
  }

  lemma AskedStands<W>(nodes: seq<Node<W>>, more: seq<Node<W>>, p: nat, asked: seq<W>)
    requires p < |nodes| && nodes <= more && AskedOnce(nodes, p, asked)
    ensures AskedOnce(more, p, asked)
  {
    assert more[1..p + 1] == nodes[1..p + 1];
  }

  lemma EdgesSpan<W>(seed: W, nodes: seq<Node<W>>, edges: seq<Edge<W>>, depthOf: map<W, nat>,
                     foundFrom: map<W, W>, g: GraphResult<W>)
    requires Registered(nodes, depthOf) && Linked(seed, edges, depthOf, foundFrom)
    requires g.nodes == nodes && g.edges == edges && g.seedWorkId == seed
    ensures forall e {:trigger Spans(g, e)} :: e in edges ==> Spans(g, e)
    ensures forall n {:trigger HasParent(g, n)} :: n in nodes && n.id != seed ==> HasParent(g, n)
  {
    forall e | e in edges ensures Spans(g, e) {
      assert e.from in depthOf && e.to in depthOf;
      assert Listed(nodes, depthOf, e.from) && Listed(nodes, depthOf, e.to);
    }
    forall n | n in nodes && n.id != seed ensures HasParent(g, n) {
      var i :| 0 <= i < |nodes| && nodes[i] == n;
      assert GivenAt(nodes, depthOf, i) && FoundAbove(edges, depthOf, foundFrom, n.id);
      assert Listed(nodes, depthOf, foundFrom[n.id]);
    }
  }

  lemma VisitedAreListed<W>(nodes: seq<Node<W>>, depthOf: map<W, nat>)
    requires Registered(nodes, depthOf)
    ensures depthOf.Keys == Ids(nodes)
  {
    forall v | v in depthOf ensures v in Ids(nodes) {
      assert Listed(nodes, depthOf, v);
    }
    forall n | n in nodes ensures n.id in depthOf {
      var i :| 0 <= i < |nodes| && nodes[i] == n;
      assert GivenAt(nodes, depthOf, i);
    }
  }

  lemma AnswersAll<W(!new)>(caps: Caps, seed: W, seedRefs: seq<W>, oracle: W -> Fetched<W>,
                            g: GraphResult<W>, visited: set<W>, p: nat, asked: seq<W>)
    requires visited == Ids(g.nodes) && (p == |g.nodes| - 1 || |g.nodes| >= caps.total)
    requires Answered(caps, seed, seedRefs, oracle, g.nodes, g.edges, visited, p, asked)
    ensures Answers(caps, seed, seedRefs, oracle, g, asked)
  {
  }

  lemma ReferencesFollowed<W(!new)>(caps: Caps, cited: W -> seq<W>, p: nat, visited: set<W>, g: GraphResult<W>)
    requires g.truncated || p == |g.nodes| - 1
    requires Expanded(g.nodes, g.edges, visited, g.truncated, p, cited, caps) && visited <= Ids(g.nodes)
    ensures Follows(caps, g, cited)
  {
    forall n | n in g.nodes ensures FollowsFrom(caps, g, cited, n) {
      var i :| 0 <= i < |g.nodes| && g.nodes[i] == n;
      assert ExpandedNth(g.nodes, i, g.edges, visited, g.truncated, p, cited, caps);
    }
  }

  lemma AskedAllAlong<W>(nodes: seq<Node<W>>, p: nat, asked: seq<W>)
    requires p < |nodes| && AskedOnce(nodes, p, asked)
    ensures AskedOnce(nodes, |nodes| - 1, asked)
  {
    var before, all := nodes[1..p + 1], nodes[1..|nodes|];
    assert all[..p] == before;
    forall n | n in before ensures n in all {
    }
  }

  lemma UncutIsNotShort<W>(caps: Caps, seed: W, seedRefs: seq<W>, oracle: W -> Fetched<W>,
                           nodes: seq<Node<W>>, asked: seq<W>)
    requires nodes != [] && Uncut(caps, seed, seedRefs, oracle, nodes, |nodes| - 1, asked)
    ensures !CutShort(caps, seed, seedRefs, oracle, nodes, asked)
  {
  }

  /** Take the next work from the queue. */
  method TakeNext<W(==, !new)>(walk: GraphWalk<W>, caps: Caps, ghost seedRefs: seq<W>, ghost oracle: W -> Fetched<W>,
                               ghost p: nat, ghost asked: seq<W>)
    returns (next: Node<W>)
    requires Going(walk, caps, seedRefs, oracle, p, asked) && walk.queue != []
    modifies walk`queue
    ensures Between(walk, caps, seedRefs, oracle, p + 1, p, asked) && next == walk.nodes[p + 1]
    ensures AskedOnce(walk.nodes, p + 1, asked) && AskedOnce(walk.nodes, p + 1, asked + [next.id])
  {
    next := walk.Pop(caps, p);
    AskedGrows(walk.nodes, p, asked);
  }

  datatype Visit = Onward | Enough | Unlogged

  /** No work is asked for twice, and the seed not at all. */
  ghost predicate NoRepeats<W>(seed: W, asked: seq<W>) {
    seed !in asked && forall j, k :: 0 <= j < k < |asked| ==> asked[j] != asked[k]
  }

  lemma AskedOnceIsNoRepeats<W>(nodes: seq<Node<W>>, p: nat, asked: seq<W>)
    requires p < |nodes| && Distinct(nodes) && AskedOnce(nodes, p, asked)
    ensures NoRepeats(nodes[0].id, asked)
  {
    forall a | a in asked ensures a != nodes[0].id {
      var n :| n in nodes[1..p + 1] && n.id == a;
      var i :| 0 <= i < p && nodes[1..p + 1][i] == n;
      assert Apart(nodes, 0, i + 1);
    }
  }

  ghost predicate SomeUnlogged<W>(oracle: W -> Fetched<W>, asked: seq<W>) {
    exists a :: a in asked && oracle(a).NotLogged?
  }

  /** Only the answer for the last work asked for could not be logged. */
  ghost predicate FailsLast<W>(oracle: W -> Fetched<W>, asked: seq<W>) {
    && asked != [] && oracle(asked[|asked| - 1]).NotLogged?
    && forall k :: 0 <= k < |asked| - 1 ==> !oracle(asked[k]).NotLogged?
  }

  /** One work from the queue: left out below the depth cap, the end of the
      walk at the cap on works, and otherwise asked for. */
  method VisitNext<W(==, !new)>(walk: GraphWalk<W>, caps: Caps, ghost seedRefs: seq<W>, oracle: W -> Fetched<W>,
                                ghost p: nat, asked: seq<W>)
    returns (visit: Visit, more: seq<W>)
    requires Going(walk, caps, seedRefs, oracle, p, asked) && walk.queue != []
    modifies walk
    ensures NoRepeats(walk.seed, more)
    ensures visit.Unlogged? ==> FailsLast(oracle, more) && SomeUnlogged(oracle, more)
    ensures !visit.Unlogged? ==> Going(walk, caps, seedRefs, oracle, p + 1, more)
    ensures visit.Enough? ==> walk.truncated && |walk.nodes| >= Max(2, caps.total)
    ensures |walk.nodes| >= |old(walk.nodes)| >= 2
  {
    var next := TakeNext(walk, caps, seedRefs, oracle, p, asked);
    more := asked;
    AskedOnceIsNoRepeats(walk.nodes, p + 1, asked);
    AskedOnceIsNoRepeats(walk.nodes, p + 1, asked + [next.id]);
    if next.depth >= caps.depth {
      Skip(walk, caps, seedRefs, oracle, p, asked, asked);
      return Onward, more;
    }
    if |walk.nodes| >= caps.total {
      Skip(walk, caps, seedRefs, oracle, p, asked, asked);
      return Enough, more;
    }
    more := asked + [next.id];
    assert more[|asked|] == next.id;
    match oracle(next.id) {
      case NotLogged =>
        return Unlogged, more;
      case References(refs) =>
        OnItsTurn(walk, next, caps, seedRefs, oracle, p, asked);
        TakeAnswer(walk, next, refs, caps, seedRefs, oracle, p, asked);
      case _ =>
        Skip(walk, caps, seedRefs, oracle, p, asked, more);
    }
    return Onward, more;
  }

  lemma Concludes<W(!new)>(walk: GraphWalk<W>, caps: Caps, seedRefs: seq<W>, oracle: W -> Fetched<W>,
                           p: nat, asked: seq<W>)
    requires Going(walk, caps, seedRefs, oracle, p, asked)
    requires walk.queue == [] || (walk.truncated && |walk.nodes| >= Max(2, caps.total))
    requires |walk.nodes| > 1 <==>
             caps.total > 1 && exists k :: 0 <= k < Min(|seedRefs|, caps.perPaper) && seedRefs[k] != walk.seed
    ensures var g := GraphResult(walk.seed, walk.nodes, walk.edges, walk.truncated, |walk.nodes|);
            Explains(caps, walk.seed, seedRefs, oracle, g, asked) && !SomeUnlogged(oracle, asked)
  {
    var g := GraphResult(walk.seed, walk.nodes, walk.edges, walk.truncated, |walk.nodes|);
    AskedAllAlong(walk.nodes, p, asked);
    EdgesSpan(walk.seed, walk.nodes, walk.edges, walk.depthOf, walk.foundFrom, g);
    VisitedAreListed(walk.nodes, walk.depthOf);
    AnswersAll(caps, walk.seed, seedRefs, oracle, g, walk.visited, p, asked);
    ReferencesFollowed(caps, CitedBy(walk.seed, seedRefs, oracle), p, walk.visited, g);
    if !walk.truncated {
      UncutIsNotShort(caps, walk.seed, seedRefs, oracle, walk.nodes, asked);
    }
    if Unhampered(caps, walk.seed, seedRefs, oracle, walk.nodes, asked) {
      AllWhole(caps, CitedBy(walk.seed, seedRefs, oracle), walk.visited, g);
    }
  }

  lemma AllWhole<W(!new)>(caps: Caps, cited: W -> seq<W>, visited: set<W>, g: GraphResult<W>)
    requires g.nodes != [] && g.nodes[0].id == g.seedWorkId && Distinct(g.nodes) && visited <= Ids(g.nodes)
    requires Whole(g.nodes, g.edges, visited, |g.nodes| - 1, cited, caps)
    ensures WholeAbove(caps, g, cited)
  {
    forall n | n in g.nodes ensures WholeFrom(caps, g, cited, n) {
      var i :| 0 <= i < |g.nodes| && g.nodes[i] == n;
      assert WholeAt(g.nodes, i, g.edges, visited, cited, caps);
      assert i > 0 ==> Apart(g.nodes, 0, i);
    }
  }

  method Explore<W(==, !new)>(caps: Caps, seed: W, seedRefs: seq<W>, oracle: W -> Fetched<W>)
    returns (r: Result<GraphResult<W>, GraphError>, asked: seq<W>)
    ensures NoRepeats(seed, asked)
    ensures if SomeUnlogged(oracle, asked) then r == Err(LogFailed) && FailsLast(oracle, asked)
            else r.Ok? && Explains(caps, seed, seedRefs, oracle, r.value, asked)
  {
    asked := [];
    var walk := Begin(caps, seed, seedRefs, oracle);
    ghost var p := 0;
    ghost var grown := |walk.nodes| > 1;
    while walk.queue != []
      invariant fresh(walk) && walk.seed == seed && Going(walk, caps, seedRefs, oracle, p, asked)
      invariant grown <==> |walk.nodes| > 1
      invariant NoRepeats(seed, asked)
      decreases Max(1, caps.total) - p
    {
      var visit;
      visit, asked := VisitNext(walk, caps, seedRefs, oracle, p, asked);
      if visit.Unlogged? {
        return Err(LogFailed), asked;
      }
      p := p + 1;
      if visit.Enough? {
        break;
      }
    }
    Concludes(walk, caps, seedRefs, oracle, p, asked);
    r := Ok(GraphResult(seed, walk.nodes, walk.edges, walk.truncated, |walk.nodes|));
  }

  method Expand<W(==, !new)>(enabled: bool, requested: Caps, seedAnswer: SeedAnswer<W>, oracle: W -> Fetched<W>)
    returns (r: Result<GraphResult<W>, GraphError>, asked: seq<W>)
    ensures !enabled ==> r == Err(CapabilityDenied) && asked == []
    ensures enabled && seedAnswer.SeedFails? ==> r == Err(SourceError) && asked == []
    ensures enabled && seedAnswer.SeedNotFound? ==> r == Err(SeedNotIndexed) && asked == []
    ensures enabled && seedAnswer.SeedRecord? ==>
            var caps, seed, seedRefs := Clamped(requested), seedAnswer.id, seedAnswer.refs;
            NoRepeats(seed, asked) &&
            if SomeUnlogged(oracle, asked) then r == Err(LogFailed) && FailsLast(oracle, asked)
            else r.Ok? && Explains(caps, seed, seedRefs, oracle, r.value, asked)
  {
    asked := [];
    if !enabled {
      return Err(CapabilityDenied), asked;
    }
    var caps := Clamped(requested);
    match seedAnswer {
      case SeedFails => return Err(SourceError), asked;
      case SeedNotFound => return Err(SeedNotIndexed), asked;
      case SeedRecord(seed, seedRefs) =>
        r, asked := Explore(caps, seed, seedRefs, oracle);
    }
  }

  /** What a returned graph is, under the clamped caps. */
  ghost predicate Explains<W(!new)>(caps: Caps, seed: W, seedRefs: seq<W>, oracle: W -> Fetched<W>,
                                    g: GraphResult<W>, asked: seq<W>)
  {
    && g.seedWorkId == seed && g.totalVisited == |g.nodes|
    && WithinCaps(g.nodes, caps)
    && Layered(g)
    && Follows(caps, g, CitedBy(seed, seedRefs, oracle))
    && (g.truncated <==> CutShort(caps, seed, seedRefs, oracle, g.nodes, asked))
    && (|g.nodes| > 1 <==>
        caps.total > 1 && exists k :: 0 <= k < Min(|seedRefs|, caps.perPaper) && seedRefs[k] != seed)
    && (Unhampered(caps, seed, seedRefs, oracle, g.nodes, asked) ==>
          WholeAbove(caps, g, CitedBy(seed, seedRefs, oracle)))
    && g.nodes != [] && AskedOnce(g.nodes, |g.nodes| - 1, asked)
    && Answers(caps, seed, seedRefs, oracle, g, asked)
  }

  /** Who is asked, and what becomes of the answers, whatever the flag: every work
      above the depth cap is asked while there is room, and no other; of the
      seed's references and of those of every answer that could be read, all
      within the cap on one work are taken, up to the first for which there is no
      room; and nothing leads out of the other works. */
  ghost predicate Answers<W(!new)>(caps: Caps, seed: W, seedRefs: seq<W>, oracle: W -> Fetched<W>,
                                   g: GraphResult<W>, asked: seq<W>)
  {
    && TakesFrom(seedRefs, Targets(g.edges, seed), Ids(g.nodes), |g.nodes|, caps)
    && (forall k :: 0 <= k < |asked| ==> FollowedUp(oracle, g.edges, Ids(g.nodes), |g.nodes|, caps, asked[k]))
    && (forall i :: 1 <= i < |g.nodes| ==> AskedIfAbove(g.nodes, i, asked, caps))
    && (forall i :: 1 <= i < |g.nodes| ==> AboveIfAsked(g.nodes, i, asked, caps))
    && SilentElse(seed, oracle, g.edges, asked)
  }

  /** Each work once, the seed at depth 0, no edge leading down more than one
      level, and a work one level up behind every other. */
  ghost predicate Layered<W>(g: GraphResult<W>) {
    && g.nodes != [] && g.nodes[0] == Node(g.seedWorkId, 0)
    && Distinct(g.nodes)
    && (forall e {:trigger Spans(g, e)} :: e in g.edges ==> Spans(g, e))
    && (forall n {:trigger HasParent(g, n)} :: n in g.nodes && n.id != g.seedWorkId ==> HasParent(g, n))
  }

  ghost predicate Spans<W>(g: GraphResult<W>, e: Edge<W>) {
    exists m, n :: m in g.nodes && n in g.nodes && e == Edge(m.id, n.id) && n.depth <= m.depth + 1
  }

  ghost predicate HasParent<W>(g: GraphResult<W>, n: Node<W>) {
    exists m :: m in g.nodes && Edge(m.id, n.id) in g.edges && n.depth == m.depth + 1
  }

  /** The edges out of a work are its references, in order and no more than the
      cap; all of them, and inside the graph, unless the flag is up. */
  ghost predicate Follows<W(!new)>(caps: Caps, g: GraphResult<W>, cited: W -> seq<W>) {
    forall n {:trigger FollowsFrom(caps, g, cited, n)} :: n in g.nodes ==> FollowsFrom(caps, g, cited, n)
  }

  ghost predicate FollowsFrom<W(!new)>(caps: Caps, g: GraphResult<W>, cited: W -> seq<W>, n: Node<W>) {
    && Targets(g.edges, n.id) <= cited(n.id) && |Targets(g.edges, n.id)| <= caps.perPaper
    && (!g.truncated ==> Targets(g.edges, n.id) == cited(n.id)
                         && forall v :: v in cited(n.id) ==> v in Ids(g.nodes))
  }

  /** ... and those of a work above the depth cap are all in, if nothing but
      that cap stood in the way. */
  ghost predicate WholeAbove<W(!new)>(caps: Caps, g: GraphResult<W>, cited: W -> seq<W>) {
    forall n {:trigger WholeFrom(caps, g, cited, n)} :: n in g.nodes ==> WholeFrom(caps, g, cited, n)
  }

  ghost predicate WholeFrom<W(!new)>(caps: Caps, g: GraphResult<W>, cited: W -> seq<W>, n: Node<W>) {
    n.id == g.seedWorkId || n.depth < caps.depth ==>
      Targets(g.edges, n.id) == cited(n.id) && forall v :: v in cited(n.id) ==> v in Ids(g.nodes)
  }

  // ---- What the returned graph means ----

  ghost predicate StepAt<W>(next: W -> seq<W>, path: seq<W>, i: int)
    requires 0 < i < |path|
  {
    path[i] in next(path[i - 1])
  }

  ghost predicate IsPath<W(!new)>(next: W -> seq<W>, path: seq<W>, from: W, to: W) {
    && path != [] && path[0] == from && path[|path| - 1] == to
    && forall i :: 0 < i < |path| ==> StepAt(next, path, i)
  }

  ghost predicate Reachable<W(!new)>(next: W -> seq<W>, from: W, to: W) {
    exists path :: IsPath(next, path, from, to)
  }

  lemma PathFront<W(!new)>(next: W -> seq<W>, path: seq<W>, from: W, to: W)
    requires IsPath(next, path, from, to) && |path| > 1
    ensures var n := |path| - 1;
            IsPath(next, path[..n], from, path[n - 1]) && to in next(path[n - 1])
  {
    var n := |path| - 1;
    assert StepAt(next, path, n);
    forall i | 0 < i < n ensures StepAt(next, path[..n], i) {
      assert StepAt(next, path, i);
    }
  }

  lemma PathSnoc<W(!new)>(next: W -> seq<W>, path: seq<W>, from: W, u: W, v: W)
    requires IsPath(next, path, from, u) && v in next(u)
    ensures IsPath(next, path + [v], from, v)
  {
    forall i | 0 < i <= |path| ensures StepAt(next, path + [v], i) {
      assert i < |path| ==> StepAt(next, path, i);
    }
  }

  lemma {:induction false} TargetsIff<W>(edges: seq<Edge<W>>, u: W, v: W)
    ensures v in Targets(edges, u) <==> Edge(u, v) in edges
  {
    if edges != [] {
      TargetsIff(edges[..|edges| - 1], u, v);
      assert edges == edges[..|edges| - 1] + [edges[|edges| - 1]];
    }
  }

  function EdgesOut<W(==)>(g: GraphResult<W>): W -> seq<W> {
    u => Targets(g.edges, u)
  }

  /** An edge into `n` comes from a work at most one level above it. */
  lemma EdgeSource<W>(g: GraphResult<W>, u: W, n: Node<W>) returns (m: Node<W>)
    requires Layered(g) && n in g.nodes && n.id in Targets(g.edges, u)
    ensures m in g.nodes && m.id == u && n.depth <= m.depth + 1
  {
    TargetsIff(g.edges, u, n.id);
    assert Spans(g, Edge(u, n.id));
    var n' :| n' in g.nodes && n'.id == n.id && exists m :: m in g.nodes && m.id == u && n'.depth <= m.depth + 1;
    m :| m in g.nodes && m.id == u && n'.depth <= m.depth + 1;
    SameWork(g.nodes, n, n');
  }

  lemma SameWork<W>(nodes: seq<Node<W>>, m: Node<W>, n: Node<W>)
    requires Distinct(nodes) && m in nodes && n in nodes && m.id == n.id
    ensures m == n
  {
    var i :| 0 <= i < |nodes| && nodes[i] == m;
    var j :| 0 <= j < |nodes| && nodes[j] == n;
    assert i < j ==> Apart(nodes, i, j);
    assert j < i ==> Apart(nodes, j, i);
  }

  lemma {:induction false} PathsAreNoShorter<W(!new)>(g: GraphResult<W>, path: seq<W>, n: Node<W>)
    requires Layered(g) && n in g.nodes && IsPath(EdgesOut(g), path, g.seedWorkId, n.id)
    ensures n.depth < |path|
    decreases |path|
  {
    if |path| > 1 {
      var u := path[|path| - 2];
      PathFront(EdgesOut(g), path, g.seedWorkId, n.id);
      var m := EdgeSource(g, u, n);
      PathsAreNoShorter(g, path[..|path| - 1], m);
    } else {
      SameWork(g.nodes, n, g.nodes[0]);
    }
  }

  lemma {:induction false} PathDown<W(!new)>(g: GraphResult<W>, n: Node<W>) returns (path: seq<W>)
    requires Layered(g) && n in g.nodes
    ensures IsPath(EdgesOut(g), path, g.seedWorkId, n.id) && |path| == n.depth + 1
    decreases n.depth
  {
    if n.id == g.seedWorkId {
      SameWork(g.nodes, n, g.nodes[0]);
      return [n.id];
    }
    assert HasParent(g, n);
    var m :| m in g.nodes && Edge(m.id, n.id) in g.edges && n.depth == m.depth + 1;
    path := PathDown(g, m);
    TargetsIff(g.edges, m.id, n.id);
    PathSnoc(EdgesOut(g), path, g.seedWorkId, m.id, n.id);
    path := path + [n.id];
  }

  /** The depth of a work is its distance from the seed over the returned
      edges: a path of that length leads to it and no path is shorter. */
  lemma DepthIsDistance<W(!new)>(g: GraphResult<W>, n: Node<W>)
    requires Layered(g) && n in g.nodes
    ensures IsDistance(EdgesOut(g), g.seedWorkId, n.id, n.depth)
  {
    var p := PathDown(g, n);
    forall path | IsPath(EdgesOut(g), path, g.seedWorkId, n.id) ensures |path| >= n.depth + 1 {
      PathsAreNoShorter(g, path, n);
    }
  }

  lemma {:induction false} ClosedUnderPaths<W(!new)>(next: W -> seq<W>, inside: set<W>, path: seq<W>, from: W, to: W)
    requires IsPath(next, path, from, to) && from in inside
    requires forall u, v :: u in inside && v in next(u) ==> v in inside
    ensures to in inside
    decreases |path|
  {
    if |path| > 1 {
      PathFront(next, path, from, to);
      ClosedUnderPaths(next, inside, path[..|path| - 1], from, path[|path| - 2]);
    }
  }

  /** Without the flag, the graph is everything the seed leads to: its works are
      those reachable through references, and the edges out of each are its
      references. */
  lemma UntruncatedIsReachable<W(!new)>(caps: Caps, seed: W, seedRefs: seq<W>, oracle: W -> Fetched<W>,
                                        g: GraphResult<W>, asked: seq<W>, w: W)
    requires Explains(caps, seed, seedRefs, oracle, g, asked) && !g.truncated
    ensures w in Ids(g.nodes) <==> Reachable(CitedBy(seed, seedRefs, oracle), seed, w)
    ensures w in Ids(g.nodes) ==> Targets(g.edges, w) == Cited(seed, seedRefs, oracle, w)
  {
    var cited := CitedBy(seed, seedRefs, oracle);
    forall u | u in Ids(g.nodes)
      ensures Targets(g.edges, u) == cited(u) && forall v :: v in cited(u) ==> v in Ids(g.nodes)
    {
      var n :| n in g.nodes && n.id == u;
      assert FollowsFrom(caps, g, cited, n);
    }
    ReachableIsIn(caps, cited, g, w);
  }

  /** Every reference of a work in the graph is in the graph. */
  ghost predicate Closed<W(!new)>(g: GraphResult<W>, cited: W -> seq<W>) {
    forall u, v :: u in Ids(g.nodes) && v in cited(u) ==> v in Ids(g.nodes)
  }

  lemma ReachableIsIn<W(!new)>(caps: Caps, cited: W -> seq<W>, g: GraphResult<W>, w: W)
    requires Layered(g) && Follows(caps, g, cited)
    ensures w in Ids(g.nodes) ==> Reachable(cited, g.seedWorkId, w)
    ensures Closed(g, cited) && Reachable(cited, g.seedWorkId, w) ==> w in Ids(g.nodes)
  {
    if w in Ids(g.nodes) {
      var n :| n in g.nodes && n.id == w;
      var path := PathDown(g, n);
      EdgePathIsCited(caps, cited, g, path, g.seedWorkId, w);
    }
    if Closed(g, cited) && Reachable(cited, g.seedWorkId, w) {
      var path :| IsPath(cited, path, g.seedWorkId, w);
      assert g.nodes[0] in g.nodes;
      ClosedUnderPaths(cited, Ids(g.nodes), path, g.seedWorkId, w);
    }
  }

  /** The works are everything the seed leads to exactly when no reference leads
      out of the graph. The flag tells nothing of that when it is up: it is up
      exactly when a reason to stop short came up, needless or not. */
  lemma CompleteIff<W(!new)>(caps: Caps, seed: W, seedRefs: seq<W>, oracle: W -> Fetched<W>,
                             g: GraphResult<W>, asked: seq<W>)
    requires Explains(caps, seed, seedRefs, oracle, g, asked)
    ensures var cited := CitedBy(seed, seedRefs, oracle);
            var complete := forall w :: w in Ids(g.nodes) <==> Reachable(cited, seed, w);
            && (complete <==> Closed(g, cited))
            && (!g.truncated ==> complete)
            && (g.truncated && complete <==>
                  CutShort(caps, seed, seedRefs, oracle, g.nodes, asked) && Closed(g, cited))
  {
    var cited := CitedBy(seed, seedRefs, oracle);
    if Closed(g, cited) {
      forall w ensures w in Ids(g.nodes) <==> Reachable(cited, seed, w) {
        ReachableIsIn(caps, cited, g, w);
      }
    }
    if forall w :: w in Ids(g.nodes) <==> Reachable(cited, seed, w) {
      forall u, v | u in Ids(g.nodes) && v in cited(u) ensures v in Ids(g.nodes) {
        var path :| IsPath(cited, path, seed, u);
        PathSnoc(cited, path, seed, u, v);
        assert IsPath(cited, path + [v], seed, v);
      }
    }
    if !g.truncated {
      forall w ensures w in Ids(g.nodes) <==> Reachable(cited, seed, w) {
        UntruncatedIsReachable(caps, seed, seedRefs, oracle, g, asked, w);
      }
    }
  }

  /** So it is up for two works of which the first cites the second, and there is
      nothing else, if two is the cap on works. */
  lemma FlagUpThoughComplete(oracle: int -> Fetched<int>, g: GraphResult<int>, asked: seq<int>)
    requires oracle(1) == References([])
    requires Explains(Caps(3, 2, 20), 0, [1], oracle, g, asked)
    ensures g.truncated && Ids(g.nodes) == {0, 1} && Closed(g, CitedBy(0, [1], oracle))
  {
    var cited := CitedBy(0, [1], oracle);
    assert [1][0] != 0 && |g.nodes| == 2;
    var second := g.nodes[1];
    assert second in g.nodes && Apart(g.nodes, 0, 1);
    assert HasParent(g, second);
    var m :| m in g.nodes && Edge(m.id, second.id) in g.edges && second.depth == m.depth + 1;
    assert m == g.nodes[0];
    TargetsIff(g.edges, 0, second.id);
    assert FollowsFrom(Caps(3, 2, 20), g, cited, g.nodes[0]);
    assert second.id in cited(0);
    assert g.nodes == [g.nodes[0], second];
    assert 0 in Ids(g.nodes) && 1 in Ids(g.nodes);
  }

  lemma EdgePathIsCited<W(!new)>(caps: Caps, cited: W -> seq<W>, g: GraphResult<W>, path: seq<W>, from: W, to: W)
    requires Layered(g) && Follows(caps, g, cited) && IsPath(EdgesOut(g), path, from, to)
    ensures IsPath(cited, path, from, to)
  {
    forall i | 0 < i < |path| ensures StepAt(cited, path, i) {
      assert StepAt(EdgesOut(g), path, i);
      TargetsIff(g.edges, path[i - 1], path[i]);
      assert Spans(g, Edge(path[i - 1], path[i]));
      var m :| m in g.nodes && m.id == path[i - 1];
      assert FollowsFrom(caps, g, cited, m);
    }
  }

  lemma {:induction false} ReachedWithin<W(!new)>(caps: Caps, cited: W -> seq<W>, g: GraphResult<W>, path: seq<W>, w: W)
    returns (n: Node<W>)
    requires Layered(g) && WholeAbove(caps, g, cited)
    requires IsPath(cited, path, g.seedWorkId, w) && |path| <= Max(1, caps.depth) + 1
    ensures n in g.nodes && n.id == w && n.depth < |path|
    decreases |path|
  {
    if |path| == 1 {
      n := g.nodes[0];
    } else {
      var u := path[|path| - 2];
      PathFront(cited, path, g.seedWorkId, w);
      var m := ReachedWithin(caps, cited, g, path[..|path| - 1], u);
      assert WholeFrom(caps, g, cited, m);
      assert w in Ids(g.nodes);
      n :| n in g.nodes && n.id == w;
      var m' := EdgeSource(g, u, n);
      SameWork(g.nodes, m, m');
    }
  }

  /** If nothing but the depth cap stood in the way, the graph is everything
      within that many steps of the seed by the references the oracle gives,
      one step at least, and the depth of each work is its distance by them. */
  lemma DepthCappedIsWithinReach<W(!new)>(caps: Caps, seed: W, seedRefs: seq<W>, oracle: W -> Fetched<W>,
                                          g: GraphResult<W>, asked: seq<W>)
    requires Explains(caps, seed, seedRefs, oracle, g, asked)
    requires Unhampered(caps, seed, seedRefs, oracle, g.nodes, asked)
    ensures var cited := CitedBy(seed, seedRefs, oracle);
            && (forall w :: w in Ids(g.nodes) <==>
                  exists path :: IsPath(cited, path, seed, w) && |path| <= Max(1, caps.depth) + 1)
            && (forall n :: n in g.nodes ==> IsDistance(cited, seed, n.id, n.depth))
  {
    var cited := CitedBy(seed, seedRefs, oracle);
    forall n | n in g.nodes ensures IsDistance(cited, seed, n.id, n.depth) && n.depth <= Max(1, caps.depth) {
      OracleDistance(caps, cited, g, n);
    }
    forall w ensures w in Ids(g.nodes) <==>
                     exists path :: IsPath(cited, path, seed, w) && |path| <= Max(1, caps.depth) + 1
    {
      if path :| IsPath(cited, path, seed, w) && |path| <= Max(1, caps.depth) + 1 {
        var n := ReachedWithin(caps, cited, g, path, w);
      }
      if w in Ids(g.nodes) {
        var n :| n in g.nodes && n.id == w;
        var path :| IsPath(cited, path, seed, n.id) && |path| == n.depth + 1;
      }
    }
  }

  /** A path of `d` steps leads there, and none of fewer. */
  ghost predicate IsDistance<W(!new)>(next: W -> seq<W>, from: W, to: W, d: nat) {
    && (exists path :: IsPath(next, path, from, to) && |path| == d + 1)
    && (forall path :: IsPath(next, path, from, to) ==> |path| >= d + 1)
  }

  lemma OracleDistance<W(!new)>(caps: Caps, cited: W -> seq<W>, g: GraphResult<W>, n: Node<W>)
    requires Layered(g) && Follows(caps, g, cited) && WholeAbove(caps, g, cited) && WithinCaps(g.nodes, caps)
    requires n in g.nodes
    ensures IsDistance(cited, g.seedWorkId, n.id, n.depth) && n.depth <= Max(1, caps.depth)
  {
    var down := PathDown(g, n);
    EdgePathIsCited(caps, cited, g, down, g.seedWorkId, n.id);
    forall path | IsPath(cited, path, g.seedWorkId, n.id) ensures |path| >= n.depth + 1 {
      if |path| <= n.depth {
        var m := ReachedWithin(caps, cited, g, path, n.id);
        SameWork(g.nodes, m, n);
      }
    }
  }

  /** The documentation promises "seed only" for a depth cap of 0. The cap is
      kept exactly when it is at least 1, or the cap on works leaves the seed
      alone, or the references taken from the seed are all to itself. */
  lemma DepthCapKeptIff<W(!new)>(caps: Caps, seed: W, seedRefs: seq<W>, oracle: W -> Fetched<W>,
                                 g: GraphResult<W>, asked: seq<W>)
    requires Explains(caps, seed, seedRefs, oracle, g, asked)
    ensures (forall n :: n in g.nodes ==> n.depth <= caps.depth) <==>
            || caps.depth >= 1 || caps.total <= 1
            || forall k :: 0 <= k < Min(|seedRefs|, caps.perPaper) ==> seedRefs[k] == seed
  {
    if |g.nodes| > 1 {
      SecondIsBelow(g);
      assert g.nodes[1] in g.nodes;
    } else {
      assert forall n :: n in g.nodes ==> n == g.nodes[0];
    }
    assert caps.depth >= 1 ==> forall n :: n in g.nodes ==> n.depth <= Max(1, caps.depth);
  }

  lemma SecondIsBelow<W>(g: GraphResult<W>)
    requires Layered(g) && |g.nodes| > 1
    ensures g.nodes[1].depth >= 1
  {
    assert Apart(g.nodes, 0, 1);
    assert g.nodes[1] in g.nodes && HasParent(g, g.nodes[1]);
  }
}
