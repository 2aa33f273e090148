/**
 * `neighbors_for_person` and the breadth-first `shortest_path` of
 * degrees.py, over a loaded graph.
 *
 * The frontier is a FIFO sequence of search nodes; a node records the
 * person it reached, the movie it came through and the node it came from.
 */
module DegreesSearch {
  import opened Wrappers
  import opened DegreesGraph

  /** A search node: the root has no parent and no action. */
  datatype Node = Root(state: PersonId) | Child(state: PersonId, action: MovieId, parent: Node)

  /** The steps from the root of `n` down to `n`. */
  function PathOf(n: Node): seq<Step>
  {
    match n
    case Root(_) => []
    case Child(q, m, p) => PathOf(p) + [(m, q)]
  }

  function Depth(n: Node): nat
  {
    |PathOf(n)|
  }

  function Reversed(s: seq<Step>): (r: seq<Step>)
    ensures |r| == |s|
    ensures forall i :: 0 <= i < |s| ==> r[i] == s[|s| - 1 - i]
  {
    if s == [] then [] else [s[|s| - 1]] + Reversed(s[..|s| - 1])
  }

  /**
   * What a search comes to: a connection, none, a KeyError from a failed
   * lookup, or a `remove()` on a frontier with nothing left in it.
   */
  datatype Outcome = Found(path: seq<Step>) | NotConnected | KeyError | EmptyFrontier

  /**
   * Every (movie, co-star) pair of `p`, the pair of `p` with themself
   * included; `None` where the lookup of `p` or of one of their movies
   * raises a KeyError.
   */
  method NeighborsForPerson(g: Graph, p: PersonId) returns (r: Option<set<Step>>)
    ensures r.Some? <==> Expandable(g, p)
    ensures r.Some? ==> forall m, q :: (m, q) in r.value <==> Edge(g, p, m, q)
  {
    if p !in g.people {
      return None;
    }
    var movieIds := g.people[p].movies;
    var neighbors: set<Step> := {};
    var todo := movieIds;
    while todo != {}
      invariant todo <= movieIds
      invariant movieIds - todo <= g.movies.Keys
      invariant forall m, q :: (m, q) in neighbors <==> m in movieIds - todo && m in g.movies && q in g.movies[m].stars
      decreases todo
    {
      var m :| m in todo;
      if m !in g.movies {
        return None;
      }
      var stars := g.movies[m].stars;
      var rest := stars;
      while rest != {}
        invariant rest <= stars
        invariant forall m', q :: (m', q) in neighbors <==>
          (m' in movieIds - todo && m' in g.movies && q in g.movies[m'].stars) || (m' == m && q in stars - rest)
        decreases rest
      {
        var q :| q in rest;
        neighbors := neighbors + {(m, q)};
        rest := rest - {q};
      }
      todo := todo - {m};
    }
    return Some(neighbors);
  }

  /** Walks the parent links from `n` back to the root and reverses what it collected. */
  method Backtrack(n: Node) returns (path: seq<Step>)
    ensures path == PathOf(n)
  {
    path := [];
    var node := n;
    while node.Child?
      invariant PathOf(n) == PathOf(node) + Reversed(path)
      decreases node
    {
      path := path + [(node.action, node.state)];
      node := node.parent;
    }
    path := Reversed(path);
  }

  /** The states of the frontier's nodes. */
  function States(frontier: seq<Node>): set<PersonId>
  {
    set n | n in frontier :: n.state
  }

  /** `QueueFrontier.contains_state`: some node on the frontier holds `q`. */
  function ContainsState(frontier: seq<Node>, q: PersonId): (r: bool)
    ensures r <==> q in States(frontier)
  {
    exists n :: n in frontier && n.state == q
  }

  /** The node records a connection from `s` to its own state. */
  ghost predicate Traced(g: Graph, s: PersonId, n: Node)
  {
    IsWalk(g, s, PathOf(n)) && End(s, PathOf(n)) == n.state
  }

  /**
   * The frontier during a breadth-first search at depth `level`: each node
   * traced, unexplored and no deeper than a shortest connection to it; the
   * depths between `level` and `level + 1` and non-decreasing from front to
   * back; no state held twice.
   */
  ghost predicate FrontierOk(g: Graph, s: PersonId, frontier: seq<Node>, explored: set<PersonId>, level: nat)
  {
    && (forall n :: n in frontier ==>
          && Traced(g, s, n)
          && n.state !in explored
          && level <= Depth(n) <= level + 1
          && NoShorter(g, s, n.state, Depth(n)))
    && (forall i, j :: 0 <= i < j < |frontier| ==>
          frontier[i].state != frontier[j].state && Depth(frontier[i]) <= Depth(frontier[j]))
  }

  /** Everybody reachable from `s` in at most `k` steps is in `seen`. */
  ghost predicate Covered(g: Graph, s: PersonId, k: nat, seen: set<PersonId>)
  {
    forall w :: IsWalk(g, s, w) && |w| <= k ==> End(s, w) in seen
  }

  /** Every co-star of every member of `xs` is in `seen`. */
  ghost predicate Closed(g: Graph, xs: set<PersonId>, seen: set<PersonId>)
  {
    forall x, m, q :: x in xs && Edge(g, x, m, q) ==> q in seen
  }

  /**
   * The state of the search between steps: the frontier as above, everybody
   * within `level` steps seen, every co-star of `closed` seen, the source
   * seen, the target seen only if it is the source, and everybody seen
   * drawn from `universe`.
   */
  ghost predicate Searching(g: Graph, s: PersonId, t: PersonId, frontier: seq<Node>, explored: set<PersonId>,
                            closed: set<PersonId>, level: nat, universe: set<PersonId>)
  {
    var seen := explored + States(frontier);
    && FrontierOk(g, s, frontier, explored, level)
    && Covered(g, s, level, seen)
    && Closed(g, closed, seen)
    && s in seen
    && (t in seen ==> t == s)
    && seen <= universe
  }

  /** With nothing left on the frontier, everybody reachable has been explored. */
  lemma Exhausted(g: Graph, s: PersonId, t: PersonId, explored: set<PersonId>, level: nat, universe: set<PersonId>)
    requires Searching(g, s, t, [], explored, explored, level, universe)
    ensures s != t ==> !Connected(g, s, t)
  {
    assert States([]) == {};
    if s != t && Connected(g, s, t) {
      var w :| IsWalk(g, s, w) && End(s, w) == t;
      ClosedHoldsWalks(g, s, explored, w);
    }
  }

  /** Once the whole frontier is one step deeper than `level`, everybody within `level + 1` steps has been seen. */
  lemma LevelUp(g: Graph, s: PersonId, level: nat, explored: set<PersonId>, frontier: seq<Node>)
    requires Covered(g, s, level, explored + States(frontier))
    requires Closed(g, explored, explored + States(frontier))
    requires forall n :: n in frontier ==> Depth(n) > level && NoShorter(g, s, n.state, Depth(n))
    ensures Covered(g, s, level + 1, explored + States(frontier))
  {
    forall w: seq<Step> | IsWalk(g, s, w) && |w| <= level + 1
      ensures End(s, w) in explored + States(frontier)
    {
      if |w| == level + 1 {
        WalkPrefix(g, s, w, level);
        var p := Before(s, w, level);
        assert p in explored;
        assert Edge(g, Before(s, w, level), w[level].0, w[level].1);
      }
    }
  }

  /** Taking the front node off the frontier and exploring its state. */
  lemma Dequeue(g: Graph, s: PersonId, frontier: seq<Node>, explored: set<PersonId>, level: nat)
    requires frontier != [] && FrontierOk(g, s, frontier, explored, level)
    ensures FrontierOk(g, s, frontier[1..], explored + {frontier[0].state}, level)
    ensures States(frontier) == States(frontier[1..]) + {frontier[0].state}
  {
  }

  /** Putting a newly discovered co-star of the node being expanded at the back of the frontier. */
  lemma Discover(g: Graph, s: PersonId, frontier: seq<Node>, explored: set<PersonId>, level: nat,
                 node: Node, m: MovieId, q: PersonId)
    requires FrontierOk(g, s, frontier, explored, level)
    requires Covered(g, s, level, explored + States(frontier))
    requires Traced(g, s, node) && Depth(node) == level
    requires Edge(g, node.state, m, q) && q !in explored + States(frontier)
    ensures Traced(g, s, Child(q, m, node)) && Depth(Child(q, m, node)) == level + 1
    ensures NoShorter(g, s, q, level + 1)
    ensures FrontierOk(g, s, frontier + [Child(q, m, node)], explored, level)
    ensures States(frontier + [Child(q, m, node)]) == States(frontier) + {q}
  {
    WalkExtend(g, s, PathOf(node), m, q);
    var child := Child(q, m, node);
    var frontier' := frontier + [child];
    forall i, j | 0 <= i < j < |frontier'|
      ensures frontier'[i].state != frontier'[j].state && Depth(frontier'[i]) <= Depth(frontier'[j])
    {
      if j == |frontier| {
        assert frontier'[i] in frontier;
      }
    }
  }

  /**
   * The `for neighbor in neighbors` loop of one expansion of `node`: each
   * co-star neither explored nor on the frontier gets a node; the target's
   * node is handed back at once, every other one joins the back of the
   * frontier.
   */
  method AddNeighbors(g: Graph, ghost source: PersonId, target: PersonId, node: Node, neighbors: set<Step>,
                      frontier: seq<Node>, explored: set<PersonId>,
                      ghost level: nat, ghost expanded: set<PersonId>, ghost universe: set<PersonId>)
    returns (frontier': seq<Node>, found: Option<Node>)
    requires Searching(g, source, target, frontier, explored, expanded, level, universe)
    requires explored == expanded + {node.state} && AllStars(g) <= universe
    requires Traced(g, source, node) && Depth(node) == level
    requires forall m, q :: (m, q) in neighbors <==> Edge(g, node.state, m, q)
    ensures found.None? ==> Searching(g, source, target, frontier', explored, explored, level, universe)
    ensures found.None? ==> |frontier| <= |frontier'| && frontier'[..|frontier|] == frontier
    ensures found.Some? ==> found.value.state == target != source && Traced(g, source, found.value)
    ensures found.Some? ==> NoShorter(g, source, target, Depth(found.value))
  {
    frontier' := frontier;
    var todo := neighbors;
    while todo != {}
      invariant todo <= neighbors
      invariant Searching(g, source, target, frontier', explored, expanded, level, universe)
      invariant forall m, q :: (m, q) in neighbors - todo ==> q in explored + States(frontier')
      invariant |frontier| <= |frontier'| && frontier'[..|frontier|] == frontier
      decreases todo
    {
      var neighbor :| neighbor in todo;
      todo := todo - {neighbor};
      var (m, q) := neighbor;
      if q !in explored && !ContainsState(frontier', q) {
        Discover(g, source, frontier', explored, level, node, m, q);
        var child := Child(q, m, node);
        if q == target {
          return frontier', Some(child);
        }
        assert q in g.movies[m].stars;
        assert (frontier' + [child])[..|frontier|] == frontier'[..|frontier|];
        frontier' := frontier' + [child];
      }
    }
    found := None;
  }

  /**
   * `shortest_path`: breadth-first search from `source`.  A found path is
   * a connection to `target` that no other connection beats, and never
   * visits anybody twice.  As written the search never reports a path
   * from a person to themself: the source is explored before any
   * co-star is compared with the target.  Nor does it ever report "not
   * connected": the loop only ends with a path, so once everybody
   * reachable is explored it takes a node from an empty frontier.
   */
  method ShortestPath(g: Graph, source: PersonId, target: PersonId) returns (r: Outcome)
    ensures r.Found? ==> r.path != [] && IsWalk(g, source, r.path) && End(source, r.path) == target
    ensures r.Found? ==> NoShorter(g, source, target, |r.path|)
    ensures r.Found? ==> Simple(source, r.path) && forall i :: 0 <= i < |r.path| ==> r.path[i].1 != source
    ensures r.EmptyFrontier? && source != target ==> !Connected(g, source, target)
    ensures r.KeyError? ==> exists w :: IsWalk(g, source, w) && !Expandable(g, End(source, w))
    ensures source == target ==> !r.Found?
    ensures !r.NotConnected?
  {
    var frontier := [Root(source)];
    var explored: set<PersonId> := {};
    ghost var level: nat := 0;
    ghost var universe := {source} + AllStars(g);
    assert States(frontier) == {source};
    while true
      invariant Searching(g, source, target, frontier, explored, explored, level, universe)
      decreases universe - explored
    {
      if frontier == [] {
        // Here degrees.py calls remove() on an empty frontier.
        Exhausted(g, source, target, explored, level, universe);
        return EmptyFrontier;
      }
      var node := frontier[0];
      if Depth(node) == level + 1 {
        LevelUp(g, source, level, explored, frontier);
        level := level + 1;
      }
      Dequeue(g, source, frontier, explored, level);
      frontier := frontier[1..];
      ghost var expanded := explored;
      explored := explored + {node.state};
      var neighbors := NeighborsForPerson(g, node.state);
      if neighbors.None? {
        assert IsWalk(g, source, PathOf(node)) && End(source, PathOf(node)) == node.state;
        return KeyError;
      }
      var found;
      frontier, found := AddNeighbors(g, source, target, node, neighbors.value, frontier, explored, level, expanded, universe);
      if found.Some? {
        var path := Backtrack(found.value);
        ShortestIsSimple(g, source, path);
        return Found(path);
      }
    }
  }

  /**
   * The search with the two cases degrees.py misses put right: a person
   * is zero steps from themself, and an exhausted frontier means "not
   * connected".
   */
  method Degrees(g: Graph, source: PersonId, target: PersonId) returns (r: Outcome)
    ensures source == target ==> r == Found([])
    ensures r.Found? ==> IsWalk(g, source, r.path) && End(source, r.path) == target
    ensures r.Found? ==> NoShorter(g, source, target, |r.path|) && Simple(source, r.path)
    ensures r.NotConnected? ==> !Connected(g, source, target)
    ensures r.KeyError? ==> exists w :: IsWalk(g, source, w) && !Expandable(g, End(source, w))
    ensures !r.EmptyFrontier?
  {
    if source == target {
      return Found([]);
    }
    r := ShortestPath(g, source, target);
    if r.EmptyFrontier? {
      r := NotConnected;
    }
  }
}
