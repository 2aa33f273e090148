/**
 * The people/movies graph of the degrees-of-separation program, and what
 * it means to be connected in it.
 *
 * A person is linked to a co-star through a movie they both star in.  A
 * connection from a source person is a list of (movie, person) steps, as
 * `shortest_path` returns it: each step names a movie of the person before
 * it and a star of that movie.
 */
module DegreesGraph {

  type PersonId = string
  type MovieId = string

  /** One element of a connection: the shared movie and the person reached. */
  type Step = (MovieId, PersonId)

  datatype Person = Person(name: string, birth: string, movies: set<MovieId>)
  datatype Movie = Movie(title: string, year: string, stars: set<PersonId>)

  /** The two dictionaries `people` and `movies` of degrees.py. */
  datatype Graph = Graph(people: map<PersonId, Person>, movies: map<MovieId, Movie>)

  /** Person `q` is reachable from person `p` through movie `m`. */
  predicate Edge(g: Graph, p: PersonId, m: MovieId, q: PersonId)
  {
    p in g.people && m in g.people[p].movies && m in g.movies && q in g.movies[m].stars
  }

  /** `neighbors_for_person(p)` can look up `p` and every movie of `p` without a KeyError. */
  predicate Expandable(g: Graph, p: PersonId)
  {
    p in g.people && g.people[p].movies <= g.movies.Keys
  }

  /** The person standing before step `i` of `w`: the source for the first step. */
  function Before(s: PersonId, w: seq<Step>, i: nat): PersonId
    requires i <= |w|
  {
    if i == 0 then s else w[i - 1].1
  }

  /** The person a connection ends at. */
  function End(s: PersonId, w: seq<Step>): PersonId
  {
    Before(s, w, |w|)
  }

  /** Every step of `w` follows an edge of `g`, starting at `s`. */
  ghost predicate IsWalk(g: Graph, s: PersonId, w: seq<Step>)
  {
    forall i {:trigger Before(s, w, i)} :: 0 <= i < |w| ==> Edge(g, Before(s, w, i), w[i].0, w[i].1)
  }

  ghost predicate Connected(g: Graph, s: PersonId, t: PersonId)
  {
    exists w :: IsWalk(g, s, w) && End(s, w) == t
  }

  /** No connection from `s` to `t` has fewer than `d` steps. */
  ghost predicate NoShorter(g: Graph, s: PersonId, t: PersonId, d: nat)
  {
    forall w :: IsWalk(g, s, w) && End(s, w) == t ==> d <= |w|
  }

  /** The people on `w`, the source included, are pairwise distinct. */
  ghost predicate Simple(s: PersonId, w: seq<Step>)
  {
    forall i, j :: 0 <= i < j <= |w| ==> Before(s, w, i) != Before(s, w, j)
  }

  /** Every star of every movie; together with the source, the people a search can reach. */
  function AllStars(g: Graph): set<PersonId>
  {
    set m, q | m in g.movies && q in g.movies[m].stars :: q
  }

  /** The two sides of the join agree, as they do right after loading. */
  ghost predicate Linked(g: Graph)
  {
    && (forall p, m :: p in g.people && m in g.people[p].movies && m in g.movies ==> p in g.movies[m].stars)
    && (forall m, q :: m in g.movies && q in g.movies[m].stars ==> q in g.people && m in g.people[q].movies)
  }

  lemma WalkExtend(g: Graph, s: PersonId, w: seq<Step>, m: MovieId, q: PersonId)
    requires IsWalk(g, s, w) && Edge(g, End(s, w), m, q)
    ensures IsWalk(g, s, w + [(m, q)]) && End(s, w + [(m, q)]) == q
  {
    var w' := w + [(m, q)];
    forall i | 0 <= i < |w'| ensures Edge(g, Before(s, w', i), w'[i].0, w'[i].1) {
      if i < |w| {
        assert Before(s, w', i) == Before(s, w, i);
      }
    }
  }

  lemma WalkPrefix(g: Graph, s: PersonId, w: seq<Step>, k: nat)
    requires IsWalk(g, s, w) && k <= |w|
    ensures IsWalk(g, s, w[..k]) && End(s, w[..k]) == Before(s, w, k)
  {
    var w' := w[..k];
    forall i | 0 <= i < |w'| ensures Edge(g, Before(s, w', i), w'[i].0, w'[i].1) {
      assert Before(s, w', i) == Before(s, w, i);
    }
  }

  /**
   * A set of people that holds `s` and every neighbour of each of its
   * members holds the end of every connection from `s`.
   */
  lemma {:induction false} ClosedHoldsWalks(g: Graph, s: PersonId, xs: set<PersonId>, w: seq<Step>)
    requires s in xs
    requires forall x, m, q :: x in xs && Edge(g, x, m, q) ==> q in xs
    requires IsWalk(g, s, w)
    ensures End(s, w) in xs
    decreases |w|
  {
    if w != [] {
      var k := |w| - 1;
      WalkPrefix(g, s, w, k);
      ClosedHoldsWalks(g, s, xs, w[..k]);
      assert Edge(g, Before(s, w, k), w[k].0, w[k].1);
    }
  }

  /** The person before step `k` of `w[..i] + w[j..]`. */
  lemma SpliceBefore(s: PersonId, w: seq<Step>, i: nat, j: nat, k: nat)
    requires i <= j <= |w| && Before(s, w, i) == Before(s, w, j)
    requires k <= |w| - (j - i)
    ensures Before(s, w[..i] + w[j..], k) == Before(s, w, if k <= i then k else k + j - i)
  {
  }

  /** Cutting the loop out of a connection that revisits someone gives a shorter connection. */
  lemma Shortcut(g: Graph, s: PersonId, w: seq<Step>, i: nat, j: nat) returns (w': seq<Step>)
    requires IsWalk(g, s, w)
    requires i < j <= |w| && Before(s, w, i) == Before(s, w, j)
    ensures IsWalk(g, s, w') && End(s, w') == End(s, w) && |w'| < |w|
  {
    w' := w[..i] + w[j..];
    forall k | 0 <= k < |w'| ensures Edge(g, Before(s, w', k), w'[k].0, w'[k].1) {
      ShortcutStep(g, s, w, i, j, k);
    }
    SpliceBefore(s, w, i, j, |w'|);
    if |w'| <= i {
      assert Before(s, w, |w'|) == Before(s, w, j);
    }
  }

  lemma ShortcutStep(g: Graph, s: PersonId, w: seq<Step>, i: nat, j: nat, k: nat)
    requires IsWalk(g, s, w)
    requires i < j <= |w| && Before(s, w, i) == Before(s, w, j)
    requires k < |w| - (j - i)
    ensures Edge(g, Before(s, w[..i] + w[j..], k), (w[..i] + w[j..])[k].0, (w[..i] + w[j..])[k].1)
  {
    var w' := w[..i] + w[j..];
    var k' := if k < i then k else k + j - i;
    SpliceBefore(s, w, i, j, k);
    assert w'[k] == w[k'];
    assert Before(s, w', k) == Before(s, w, k');
    assert Edge(g, Before(s, w, k'), w[k'].0, w[k'].1);
  }

  /**
   * A shortest connection never meets a person twice, so none of its steps
   * leads back to the source.
   */
  lemma ShortestIsSimple(g: Graph, s: PersonId, w: seq<Step>)
    requires IsWalk(g, s, w) && NoShorter(g, s, End(s, w), |w|)
    ensures Simple(s, w)
    ensures forall i :: 0 <= i < |w| ==> w[i].1 != s
  {
    forall i, j | 0 <= i < j <= |w| ensures Before(s, w, i) != Before(s, w, j) {
      if Before(s, w, i) == Before(s, w, j) {
        var w' := Shortcut(g, s, w, i, j);
        assert false;
      }
    }
    forall i | 0 <= i < |w| ensures w[i].1 != s {
      assert Before(s, w, i + 1) == w[i].1;
      assert Before(s, w, 0) == s;
    }
  }

  /** After loading, a person meets themself through each of their known movies. */
  lemma SelfNeighbor(g: Graph, p: PersonId, m: MovieId)
    requires Linked(g) && p in g.people && m in g.people[p].movies && m in g.movies
    ensures Edge(g, p, m, p)
  {
  }

  /** After loading, co-starring is symmetric. */
  lemma EdgeSymmetric(g: Graph, p: PersonId, m: MovieId, q: PersonId)
    requires Linked(g) && Edge(g, p, m, q)
    ensures Edge(g, q, m, p)
  {
  }
}
