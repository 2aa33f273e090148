/**
 * The in-memory store of degrees.py: the `names`, `people` and `movies`
 * dictionaries, filled row by row from the people, movies and stars
 * records, and the lookup of a person id by name.
 */
module DegreesData {
  import opened DegreesGraph

  datatype PersonRow = PersonRow(id: PersonId, name: string, birth: string)
  datatype MovieRow = MovieRow(id: MovieId, title: string, year: string)
  datatype StarRow = StarRow(personId: PersonId, movieId: MovieId)

  /** What a name lookup finds: nobody, one person, or several to choose from. */
  datatype Lookup = NoMatch | Match(id: PersonId) | Ambiguous(candidates: set<PersonId>)

  /** `str.lower()` restricted to ASCII letters. */
  function LowerChar(c: char): char
  {
    if 'A' <= c <= 'Z' then (c as int - 'A' as int + 'a' as int) as char else c
  }

  function Lower(s: string): string
  {
    seq(|s|, i requires 0 <= i < |s| => LowerChar(s[i]))
  }

  /** Every person is indexed under their name, and every index entry is a non-empty set of known people. */
  ghost predicate Indexed(names: map<string, set<PersonId>>, people: map<PersonId, Person>)
  {
    && (forall p {:trigger Lower(people[p].name)} :: p in people ==> Lower(people[p].name) in names && p in names[Lower(people[p].name)])
    && (forall k :: k in names ==> names[k] != {} && names[k] <= people.Keys)
  }

  /** The ids filed under `key`: `names.get(key, set())`. */
  function Filed(names: map<string, set<PersonId>>, key: string): set<PersonId>
  {
    if key in names then names[key] else {}
  }

  /** The name-index update of one people.csv row: `id` joins the ids filed under the lower-cased name, and nothing else changes. */
  function IndexPerson(names: map<string, set<PersonId>>, id: PersonId, name: string): (r: map<string, set<PersonId>>)
    ensures r.Keys == names.Keys + {Lower(name)}
    ensures forall k :: Filed(r, k) == Filed(names, k) + (if k == Lower(name) then {id} else {})
  {
    var key := Lower(name);
    if key !in names then names[key := {id}] else names[key := names[key] + {id}]
  }

  lemma IndexPersonKeepsIndexed(names: map<string, set<PersonId>>, people: map<PersonId, Person>, row: PersonRow)
    requires Indexed(names, people)
    ensures Indexed(IndexPerson(names, row.id, row.name), people[row.id := Person(row.name, row.birth, {})])
  {
  }

  /** The `people` dictionary after the people.csv records `rows`. */
  function PeopleAfter(people: map<PersonId, Person>, rows: seq<PersonRow>): map<PersonId, Person>
  {
    if rows == [] then people
    else
      var r := rows[|rows| - 1];
      PeopleAfter(people, rows[..|rows| - 1])[r.id := Person(r.name, r.birth, {})]
  }

  /** The `names` index after the people.csv records `rows`. */
  function NamesAfter(names: map<string, set<PersonId>>, rows: seq<PersonRow>): map<string, set<PersonId>>
  {
    if rows == [] then names
    else
      var r := rows[|rows| - 1];
      IndexPerson(NamesAfter(names, rows[..|rows| - 1]), r.id, r.name)
  }

  /** The `movies` dictionary after the movies.csv records `rows`. */
  function MoviesAfter(movies: map<MovieId, Movie>, rows: seq<MovieRow>): map<MovieId, Movie>
  {
    if rows == [] then movies
    else
      var r := rows[|rows| - 1];
      MoviesAfter(movies, rows[..|rows| - 1])[r.id := Movie(r.title, r.year, {})]
  }

  /**
   * One stars.csv record: the person's side first, then the movie's; a
   * failed lookup ends the update where it is.
   */
  function JoinStar(g: Graph, row: StarRow): Graph
  {
    var p, m := row.personId, row.movieId;
    if p !in g.people then g
    else
      var people := g.people[p := g.people[p].(movies := g.people[p].movies + {m})];
      if m !in g.movies then Graph(people, g.movies)
      else Graph(people, g.movies[m := g.movies[m].(stars := g.movies[m].stars + {p})])
  }

  /** The store after the stars.csv records `rows`. */
  function JoinAll(g: Graph, rows: seq<StarRow>): Graph
  {
    if rows == [] then g else JoinStar(JoinAll(g, rows[..|rows| - 1]), rows[|rows| - 1])
  }

  /** The ids of `rows`. */
  function PersonIds(rows: seq<PersonRow>): set<PersonId>
  {
    set r | r in rows :: r.id
  }

  function MovieIds(rows: seq<MovieRow>): set<MovieId>
  {
    set r | r in rows :: r.id
  }

  /** Record `k` is the last one with its id, so its fields are the ones that stay. */
  predicate LastOf(rows: seq<PersonRow>, k: nat)
    requires k < |rows|
  {
    forall j :: k < j < |rows| ==> rows[j].id != rows[k].id
  }

  predicate LastMovieOf(rows: seq<MovieRow>, k: nat)
    requires k < |rows|
  {
    forall j :: k < j < |rows| ==> rows[j].id != rows[k].id
  }

  /** The people records add exactly their ids. */
  lemma {:induction false} PeopleAfterKeys(people: map<PersonId, Person>, rows: seq<PersonRow>)
    ensures PeopleAfter(people, rows).Keys == people.Keys + PersonIds(rows)
  {
    if rows != [] {
      var n := |rows| - 1;
      PeopleAfterKeys(people, rows[..n]);
      assert rows == rows[..n] + [rows[n]];
      assert PersonIds(rows) == PersonIds(rows[..n]) + {rows[n].id};
    }
  }

  /** An id holds the name and birth of its last record, with no movies. */
  lemma {:induction false} PeopleAfterLast(people: map<PersonId, Person>, rows: seq<PersonRow>, k: nat)
    requires k < |rows| && LastOf(rows, k)
    ensures rows[k].id in PeopleAfter(people, rows)
    ensures PeopleAfter(people, rows)[rows[k].id] == Person(rows[k].name, rows[k].birth, {})
  {
    var n := |rows| - 1;
    if k < n {
      assert rows[n].id != rows[k].id;
      assert LastOf(rows[..n], k);
      PeopleAfterLast(people, rows[..n], k);
    }
  }

  /** Somebody without a record keeps their entry. */
  lemma {:induction false} PeopleAfterOthers(people: map<PersonId, Person>, rows: seq<PersonRow>, p: PersonId)
    requires p in people && p !in PersonIds(rows)
    ensures p in PeopleAfter(people, rows) && PeopleAfter(people, rows)[p] == people[p]
  {
    if rows != [] {
      var n := |rows| - 1;
      assert rows[n] in rows;
      assert PersonIds(rows[..n]) <= PersonIds(rows) by {
        forall r | r in rows[..n] ensures r in rows { }
      }
      PeopleAfterOthers(people, rows[..n], p);
    }
  }

  /** Everybody with a record starts with no movies. */
  lemma {:induction false} PeopleAfterFresh(people: map<PersonId, Person>, rows: seq<PersonRow>, p: PersonId)
    requires p in PersonIds(rows)
    ensures p in PeopleAfter(people, rows) && PeopleAfter(people, rows)[p].movies == {}
  {
    var n := |rows| - 1;
    if rows[n].id != p {
      var r :| r in rows && r.id == p;
      assert rows == rows[..n] + [rows[n]];
      assert r in rows[..n];
      PeopleAfterFresh(people, rows[..n], p);
    }
  }

  /** Every record's id joins the ids filed under its lower-cased name, and nothing else is filed. */
  lemma {:induction false} NamesAfterFiled(names: map<string, set<PersonId>>, rows: seq<PersonRow>, key: string)
    ensures Filed(NamesAfter(names, rows), key) == Filed(names, key) + set r | r in rows && Lower(r.name) == key :: r.id
  {
    if rows != [] {
      var n := |rows| - 1;
      NamesAfterFiled(names, rows[..n], key);
      assert rows == rows[..n] + [rows[n]];
      assert (set r | r in rows && Lower(r.name) == key :: r.id) ==
             (set r | r in rows[..n] && Lower(r.name) == key :: r.id) + (if Lower(rows[n].name) == key then {rows[n].id} else {});
    }
  }

  /** The index gains exactly the lower-cased names of the records. */
  lemma {:induction false} NamesAfterKeys(names: map<string, set<PersonId>>, rows: seq<PersonRow>)
    ensures NamesAfter(names, rows).Keys == names.Keys + set r | r in rows :: Lower(r.name)
  {
    if rows != [] {
      var n := |rows| - 1;
      NamesAfterKeys(names, rows[..n]);
      assert NamesAfter(names, rows).Keys == NamesAfter(names, rows[..n]).Keys + {Lower(rows[n].name)};
      assert rows == rows[..n] + [rows[n]];
      assert (set r | r in rows :: Lower(r.name)) == (set r | r in rows[..n] :: Lower(r.name)) + {Lower(rows[n].name)};
    }
  }

  /** The movie records add exactly their ids. */
  lemma {:induction false} MoviesAfterKeys(movies: map<MovieId, Movie>, rows: seq<MovieRow>)
    ensures MoviesAfter(movies, rows).Keys == movies.Keys + MovieIds(rows)
  {
    if rows != [] {
      var n := |rows| - 1;
      MoviesAfterKeys(movies, rows[..n]);
      assert rows == rows[..n] + [rows[n]];
      assert MovieIds(rows) == MovieIds(rows[..n]) + {rows[n].id};
    }
  }

  /** A movie holds the title and year of its last record, with no stars. */
  lemma {:induction false} MoviesAfterLast(movies: map<MovieId, Movie>, rows: seq<MovieRow>, k: nat)
    requires k < |rows| && LastMovieOf(rows, k)
    ensures rows[k].id in MoviesAfter(movies, rows)
    ensures MoviesAfter(movies, rows)[rows[k].id] == Movie(rows[k].title, rows[k].year, {})
  {
    var n := |rows| - 1;
    if k < n {
      assert rows[n].id != rows[k].id;
      assert LastMovieOf(rows[..n], k);
      MoviesAfterLast(movies, rows[..n], k);
    }
  }

  /** A movie without a record keeps its entry. */
  lemma {:induction false} MoviesAfterOthers(movies: map<MovieId, Movie>, rows: seq<MovieRow>, m: MovieId)
    requires m in movies && m !in MovieIds(rows)
    ensures m in MoviesAfter(movies, rows) && MoviesAfter(movies, rows)[m] == movies[m]
  {
    if rows != [] {
      var n := |rows| - 1;
      assert rows[n] in rows;
      assert MovieIds(rows[..n]) <= MovieIds(rows) by {
        forall r | r in rows[..n] ensures r in rows { }
      }
      MoviesAfterOthers(movies, rows[..n], m);
    }
  }

  /** Every movie with a record starts with no stars. */
  lemma {:induction false} MoviesAfterFresh(movies: map<MovieId, Movie>, rows: seq<MovieRow>, m: MovieId)
    requires m in MovieIds(rows)
    ensures m in MoviesAfter(movies, rows) && MoviesAfter(movies, rows)[m].stars == {}
  {
    var n := |rows| - 1;
    if rows[n].id != m {
      var r :| r in rows && r.id == m;
      assert rows == rows[..n] + [rows[n]];
      assert r in rows[..n];
      MoviesAfterFresh(movies, rows[..n], m);
    }
  }

  /** Star records never add or remove a person or a movie. */
  lemma {:induction false} JoinAllKeys(g: Graph, rows: seq<StarRow>)
    ensures JoinAll(g, rows).people.Keys == g.people.Keys && JoinAll(g, rows).movies.Keys == g.movies.Keys
  {
    if rows != [] {
      JoinAllKeys(g, rows[..|rows| - 1]);
    }
  }

  /** A person gains the movie of every record naming them, and nothing else changes in their entry. */
  lemma {:induction false} JoinAllPeople(g: Graph, rows: seq<StarRow>, p: PersonId)
    requires p in g.people
    ensures p in JoinAll(g, rows).people
    ensures JoinAll(g, rows).people[p] == g.people[p].(movies := g.people[p].movies + set r | r in rows && r.personId == p :: r.movieId)
  {
    if rows != [] {
      var n := |rows| - 1;
      JoinAllPeople(g, rows[..n], p);
      assert rows == rows[..n] + [rows[n]];
      assert (set r | r in rows && r.personId == p :: r.movieId) ==
             (set r | r in rows[..n] && r.personId == p :: r.movieId) + (if rows[n].personId == p then {rows[n].movieId} else {});
    }
  }

  /** A movie gains every person of a record naming it whose entry exists, and nothing else changes in its entry. */
  lemma {:induction false} JoinAllMovies(g: Graph, rows: seq<StarRow>, m: MovieId)
    requires m in g.movies
    ensures m in JoinAll(g, rows).movies
    ensures JoinAll(g, rows).movies[m] ==
      g.movies[m].(stars := g.movies[m].stars + set r | r in rows && r.movieId == m && r.personId in g.people :: r.personId)
  {
    if rows != [] {
      var n := |rows| - 1;
      JoinAllMovies(g, rows[..n], m);
      JoinAllKeys(g, rows[..n]);
      assert rows == rows[..n] + [rows[n]];
      assert (set r | r in rows && r.movieId == m && r.personId in g.people :: r.personId) ==
             (set r | r in rows[..n] && r.movieId == m && r.personId in g.people :: r.personId) +
             (if rows[n].movieId == m && rows[n].personId in g.people then {rows[n].personId} else {});
    }
  }

  /** The store that `load_data` builds from the records of the three files, starting from nothing. */
  function Loaded(peopleRows: seq<PersonRow>, movieRows: seq<MovieRow>, starRows: seq<StarRow>): Graph
  {
    JoinAll(Graph(PeopleAfter(map[], peopleRows), MoviesAfter(map[], movieRows)), starRows)
  }

  /**
   * After loading, the people and movies are exactly those with records;
   * each holds the fields of its last record; a person's movies are those
   * of the star records naming them, and a movie's stars are the known
   * people of the star records naming it.
   */
  lemma LoadedEntries(peopleRows: seq<PersonRow>, movieRows: seq<MovieRow>, starRows: seq<StarRow>)
    ensures Loaded(peopleRows, movieRows, starRows).people.Keys == PersonIds(peopleRows)
    ensures Loaded(peopleRows, movieRows, starRows).movies.Keys == MovieIds(movieRows)
    ensures forall k :: 0 <= k < |peopleRows| && LastOf(peopleRows, k) ==>
      Loaded(peopleRows, movieRows, starRows).people[peopleRows[k].id] ==
      Person(peopleRows[k].name, peopleRows[k].birth, set r | r in starRows && r.personId == peopleRows[k].id :: r.movieId)
    ensures forall k :: 0 <= k < |movieRows| && LastMovieOf(movieRows, k) ==>
      Loaded(peopleRows, movieRows, starRows).movies[movieRows[k].id] ==
      Movie(movieRows[k].title, movieRows[k].year,
            set r | r in starRows && r.movieId == movieRows[k].id && r.personId in PersonIds(peopleRows) :: r.personId)
  {
    var g := Graph(PeopleAfter(map[], peopleRows), MoviesAfter(map[], movieRows));
    PeopleAfterKeys(map[], peopleRows);
    MoviesAfterKeys(map[], movieRows);
    JoinAllKeys(g, starRows);
    forall k | 0 <= k < |peopleRows| && LastOf(peopleRows, k)
      ensures Loaded(peopleRows, movieRows, starRows).people[peopleRows[k].id] ==
              Person(peopleRows[k].name, peopleRows[k].birth, set r | r in starRows && r.personId == peopleRows[k].id :: r.movieId)
    {
      PeopleAfterLast(map[], peopleRows, k);
      JoinAllPeople(g, starRows, peopleRows[k].id);
    }
    forall k | 0 <= k < |movieRows| && LastMovieOf(movieRows, k)
      ensures Loaded(peopleRows, movieRows, starRows).movies[movieRows[k].id] ==
              Movie(movieRows[k].title, movieRows[k].year,
                    set r | r in starRows && r.movieId == movieRows[k].id && r.personId in PersonIds(peopleRows) :: r.personId)
    {
      MoviesAfterLast(map[], movieRows, k);
      JoinAllMovies(g, starRows, movieRows[k].id);
    }
  }

  class Database {
    /** Lower-cased name to the ids of everybody with that name. */
    var names: map<string, set<PersonId>>
    var people: map<PersonId, Person>
    var movies: map<MovieId, Movie>

    function Store(): Graph
      reads this
    {
      Graph(people, movies)
    }

    ghost predicate NamesIndexed()
      reads this
    {
      Indexed(names, people)
    }

    /** Only known people are ever recorded as stars. */
    ghost predicate StarsKnown()
      reads this
    {
      forall m :: m in movies ==> movies[m].stars <= people.Keys
    }

    ghost predicate Valid()
      reads this
    {
      NamesIndexed() && StarsKnown()
    }

    constructor ()
      ensures names == map[] && people == map[] && movies == map[]
      ensures Valid()
    {
      names, people, movies := map[], map[], map[];
    }

    /** One row of people.csv: a fresh entry with no movies, indexed under its lower-cased name. */
    method LoadPerson(row: PersonRow)
      requires Valid()
      modifies this
      ensures Valid()
      ensures people == old(people)[row.id := Person(row.name, row.birth, {})]
      ensures movies == old(movies)
      ensures names == IndexPerson(old(names), row.id, row.name)
    {
      IndexPersonKeepsIndexed(names, people, row);
      people := people[row.id := Person(row.name, row.birth, {})];
      var key := Lower(row.name);
      if key !in names {
        names := names[key := {row.id}];
      } else {
        names := names[key := names[key] + {row.id}];
      }
    }

    /** One row of movies.csv: a fresh entry with no stars. */
    method LoadMovie(row: MovieRow)
      requires Valid()
      modifies this
      ensures Valid()
      ensures movies == old(movies)[row.id := Movie(row.title, row.year, {})]
      ensures people == old(people) && names == old(names)
    {
      movies := movies[row.id := Movie(row.title, row.year, {})];
    }

    /**
     * One row of stars.csv.  The person's side is updated first; a KeyError
     * on either lookup is swallowed, so a row with an unknown person changes
     * nothing and a row with a known person but an unknown movie changes
     * only the person's side.
     */
    method LoadStar(row: StarRow)
      requires Valid()
      modifies this
      ensures Valid()
      ensures names == old(names)
      ensures row.personId !in old(people) ==> people == old(people) && movies == old(movies)
      ensures row.personId in old(people) ==>
        people == old(people)[row.personId := old(people)[row.personId].(movies := old(people)[row.personId].movies + {row.movieId})]
      ensures row.personId in old(people) && row.movieId in old(movies) ==>
        movies == old(movies)[row.movieId := old(movies)[row.movieId].(stars := old(movies)[row.movieId].stars + {row.personId})]
      ensures row.movieId !in old(movies) ==> movies == old(movies)
      ensures old(Linked(Store())) ==> Linked(Store())
      ensures Store() == JoinStar(old(Store()), row)
    {
      var p, m := row.personId, row.movieId;
      if p in people {
        people := people[p := people[p].(movies := people[p].movies + {m})];
        if m in movies {
          movies := movies[m := movies[m].(stars := movies[m].stars + {p})];
        }
      }
    }

    /**
     * The people.csv loop of `load_data`: one `LoadPerson` per record, in
     * file order.  Each id ends up holding the name and birth of its last
     * record, with no movies; each record's id joins the ids filed under its
     * lower-cased name; everybody else is left alone.
     */
    method LoadPeople(rows: seq<PersonRow>)
      requires Valid()
      modifies this
      ensures Valid()
      ensures movies == old(movies)
      ensures people == PeopleAfter(old(people), rows) && names == NamesAfter(old(names), rows)
      ensures people.Keys == old(people).Keys + PersonIds(rows)
      ensures forall k :: 0 <= k < |rows| && LastOf(rows, k) ==> people[rows[k].id] == Person(rows[k].name, rows[k].birth, {})
      ensures forall p :: p in old(people) && p !in PersonIds(rows) ==> people[p] == old(people)[p]
      ensures forall p :: p in PersonIds(rows) ==> people[p].movies == {}
      ensures names.Keys == old(names).Keys + set r | r in rows :: Lower(r.name)
      ensures forall key :: Filed(names, key) == Filed(old(names), key) + set r | r in rows && Lower(r.name) == key :: r.id
    {
      for i := 0 to |rows|
        invariant Valid()
        invariant movies == old(movies)
        invariant people == PeopleAfter(old(people), rows[..i]) && names == NamesAfter(old(names), rows[..i])
      {
        LoadPerson(rows[i]);
        assert rows[..i + 1][..i] == rows[..i];
      }
      assert rows[..|rows|] == rows;
      PeopleAfterKeys(old(people), rows);
      NamesAfterKeys(old(names), rows);
      forall k | 0 <= k < |rows| && LastOf(rows, k) ensures people[rows[k].id] == Person(rows[k].name, rows[k].birth, {}) {
        PeopleAfterLast(old(people), rows, k);
      }
      forall p | p in old(people) && p !in PersonIds(rows) ensures people[p] == old(people)[p] {
        PeopleAfterOthers(old(people), rows, p);
      }
      forall p | p in PersonIds(rows) ensures people[p].movies == {} {
        PeopleAfterFresh(old(people), rows, p);
      }
      forall key ensures Filed(names, key) == Filed(old(names), key) + set r | r in rows && Lower(r.name) == key :: r.id {
        NamesAfterFiled(old(names), rows, key);
      }
    }

    /**
     * The movies.csv loop of `load_data`: one `LoadMovie` per record, in
     * file order.  Each id ends up holding the title and year of its last
     * record, with no stars; every other movie is left alone.
     */
    method LoadMovies(rows: seq<MovieRow>)
      requires Valid()
      modifies this
      ensures Valid()
      ensures people == old(people) && names == old(names)
      ensures movies == MoviesAfter(old(movies), rows)
      ensures movies.Keys == old(movies).Keys + MovieIds(rows)
      ensures forall k :: 0 <= k < |rows| && LastMovieOf(rows, k) ==> movies[rows[k].id] == Movie(rows[k].title, rows[k].year, {})
      ensures forall m :: m in old(movies) && m !in MovieIds(rows) ==> movies[m] == old(movies)[m]
      ensures forall m :: m in MovieIds(rows) ==> movies[m].stars == {}
    {
      for i := 0 to |rows|
        invariant Valid()
        invariant people == old(people) && names == old(names)
        invariant movies == MoviesAfter(old(movies), rows[..i])
      {
        LoadMovie(rows[i]);
        assert rows[..i + 1][..i] == rows[..i];
      }
      assert rows[..|rows|] == rows;
      MoviesAfterKeys(old(movies), rows);
      forall k | 0 <= k < |rows| && LastMovieOf(rows, k) ensures movies[rows[k].id] == Movie(rows[k].title, rows[k].year, {}) {
        MoviesAfterLast(old(movies), rows, k);
      }
      forall m | m in old(movies) && m !in MovieIds(rows) ensures movies[m] == old(movies)[m] {
        MoviesAfterOthers(old(movies), rows, m);
      }
      forall m | m in MovieIds(rows) ensures movies[m].stars == {} {
        MoviesAfterFresh(old(movies), rows, m);
      }
    }

    /**
     * The stars.csv loop of `load_data`: one `LoadStar` per record, in file
     * order.  Each person gains the movies of their records; each movie
     * gains those of its records whose person is known; nothing else changes.
     */
    method LoadStars(rows: seq<StarRow>)
      requires Valid() && Linked(Store())
      modifies this
      ensures Valid() && Linked(Store())
      ensures names == old(names)
      ensures Store() == JoinAll(old(Store()), rows)
      ensures people.Keys == old(people).Keys && movies.Keys == old(movies).Keys
      ensures forall p :: p in people ==>
        people[p] == old(people)[p].(movies := old(people)[p].movies + set r | r in rows && r.personId == p :: r.movieId)
      ensures forall m :: m in movies ==>
        movies[m] == old(movies)[m].(stars := old(movies)[m].stars + set r | r in rows && r.movieId == m && r.personId in people :: r.personId)
    {
      for i := 0 to |rows|
        invariant Valid() && Linked(Store())
        invariant names == old(names)
        invariant Store() == JoinAll(old(Store()), rows[..i])
      {
        LoadStar(rows[i]);
        assert rows[..i + 1][..i] == rows[..i];
      }
      assert rows[..|rows|] == rows;
      ghost var g := old(Store());
      JoinAllKeys(g, rows);
      forall p | p in people
        ensures people[p] == old(people)[p].(movies := old(people)[p].movies + set r | r in rows && r.personId == p :: r.movieId)
      {
        JoinAllPeople(g, rows, p);
      }
      forall m | m in movies
        ensures movies[m] == old(movies)[m].(stars := old(movies)[m].stars + set r | r in rows && r.movieId == m && r.personId in people :: r.personId)
      {
        JoinAllMovies(g, rows, m);
      }
    }

    /**
     * `load_data` on the records of the three files, into an empty store:
     * the people and movies of their last records, every star record whose
     * person is known joined on both sides, and the name index of every
     * people record.
     */
    method LoadData(peopleRows: seq<PersonRow>, movieRows: seq<MovieRow>, starRows: seq<StarRow>)
      requires Valid()
      requires names == map[] && people == map[] && movies == map[]
      modifies this
      ensures Valid()
      ensures Linked(Store())
      ensures Store() == Loaded(peopleRows, movieRows, starRows) && names == NamesAfter(map[], peopleRows)
      ensures people.Keys == PersonIds(peopleRows)
      ensures movies.Keys == MovieIds(movieRows)
      ensures forall k :: 0 <= k < |peopleRows| && LastOf(peopleRows, k) ==>
        people[peopleRows[k].id] == Person(peopleRows[k].name, peopleRows[k].birth, set r | r in starRows && r.personId == peopleRows[k].id :: r.movieId)
      ensures forall k :: 0 <= k < |movieRows| && LastMovieOf(movieRows, k) ==>
        movies[movieRows[k].id] == Movie(movieRows[k].title, movieRows[k].year,
                                         set r | r in starRows && r.movieId == movieRows[k].id && r.personId in people :: r.personId)
      ensures names.Keys == set r | r in peopleRows :: Lower(r.name)
      ensures forall key :: Filed(names, key) == set r | r in peopleRows && Lower(r.name) == key :: r.id
    {
      LoadPeople(peopleRows);
      LoadMovies(movieRows);
      assert Linked(Store());
      LoadStars(starRows);
      LoadedEntries(peopleRows, movieRows, starRows);
      NamesAfterKeys(map[], peopleRows);
      forall key ensures Filed(names, key) == set r | r in peopleRows && Lower(r.name) == key :: r.id {
        NamesAfterFiled(map[], peopleRows, key);
      }
    }

    /**
     * The non-interactive part of `person_id_for_name`: no candidate, one
     * candidate, or several (the interactive choice among them is the
     * caller's).
     */
    method PersonIdForName(name: string) returns (r: Lookup)
      ensures r.NoMatch? <==> Filed(names, Lower(name)) == {}
      ensures r.Match? ==> Filed(names, Lower(name)) == {r.id}
      ensures r.Ambiguous? ==> r.candidates == Filed(names, Lower(name)) && |r.candidates| > 1
      ensures Valid() && r.Match? ==> r.id in people
    {
      var ids := Filed(names, Lower(name));
      if |ids| == 0 {
        return NoMatch;
      } else if |ids| > 1 {
        return Ambiguous(ids);
      }
      var id :| id in ids;
      assert ids == {id} by {
        assert |ids - {id}| == 0;
      }
      return Match(id);
    }
  }
}
