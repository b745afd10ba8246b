/** The cinema and movie service (4lab/main.py): two tables, `cinemas` and
    `movies`, where every movie belongs to a cinema and deleting a cinema
    deletes its movies. Each table is held as the sequence of its rows in
    id order, which is the order SQLite scans them in. */
module CinemaStore {
  import opened Wrappers
  import PyStr

  datatype Cinema = Cinema(id: int, name: string, address: string)
  datatype Movie = Movie(id: int, name: string, genre: string, cinemaId: int)

  /** The answers of the endpoints: the result, or 422 (a body field that
      fails `min_length=1`), 404, 400, or 500 (the result fails the
      endpoint's response model). */
  datatype Reply<T> = Ok(value: T) | Unprocessable | NotFound | BadRequest | ServerError

  /** A cinema row passes `CinemaOut`, whose text fields keep `min_length=1`. */
  predicate CinemaShown(c: Cinema) {
    |c.name| >= 1 && |c.address| >= 1
  }

  /** A movie row passes `MovieOut`, whose text fields keep `min_length=1`. */
  predicate MovieShown(m: Movie) {
    |m.name| >= 1 && |m.genre| >= 1
  }

  /** The reply of an endpoint whose response model is a list of movies. */
  function MovieList(rows: seq<Movie>): (r: Reply<seq<Movie>>)
    ensures r.Ok? <==> forall m :: m in rows ==> MovieShown(m)
    ensures r.Ok? ==> r.value == rows
    ensures !r.Ok? ==> r == ServerError
  {
    if forall m :: m in rows ==> MovieShown(m) then Ok(rows) else ServerError
  }

  predicate Increasing(ids: seq<int>) {
    forall i, j :: 0 <= i < j < |ids| ==> ids[i] < ids[j]
  }

  function CinemaIds(cs: seq<Cinema>): (ids: seq<int>)
    ensures |ids| == |cs| && forall i :: 0 <= i < |cs| ==> ids[i] == cs[i].id
  {
    seq(|cs|, i requires 0 <= i < |cs| => cs[i].id)
  }

  function MovieIds(ms: seq<Movie>): (ids: seq<int>)
    ensures |ids| == |ms| && forall i :: 0 <= i < |ms| ==> ids[i] == ms[i].id
  {
    seq(|ms|, i requires 0 <= i < |ms| => ms[i].id)
  }

  /** The rowid SQLite gives a new row: one more than the largest in use,
      or 1 for an empty table. It is above every id in use. */
  function NextId(ids: seq<int>): (r: int)
    requires Increasing(ids)
    ensures forall i :: 0 <= i < |ids| ==> ids[i] < r
    ensures ids == [] ==> r == 1
  {
    if ids == [] then 1 else ids[|ids| - 1] + 1
  }

  /** Appending a row under a larger id keeps the ids in order. */
  lemma AppendIncreasing(ids: seq<int>, id: int)
    requires Increasing(ids) && forall i :: 0 <= i < |ids| ==> ids[i] < id
    ensures Increasing(ids + [id])
  {
  }

  /** The position of the row with the given id in a table's id column:
      `query(...).filter(... .id == id).first()` on the primary key. */
  function FindId(ids: seq<int>, id: int): (r: Option<nat>)
    ensures r.Some? ==> r.value < |ids| && ids[r.value] == id
    ensures r.None? ==> forall i :: 0 <= i < |ids| ==> ids[i] != id
  {
    if ids == [] then None
    else if ids[|ids| - 1] == id then Some(|ids| - 1)
    else FindId(ids[..|ids| - 1], id)
  }

  predicate HasCinema(cs: seq<Cinema>, id: int) {
    exists i :: 0 <= i < |cs| && cs[i].id == id
  }

  /** The movies of one cinema, in id order. */
  function MoviesOf(ms: seq<Movie>, cinemaId: int): (r: seq<Movie>)
    ensures forall m :: m in r <==> m in ms && m.cinemaId == cinemaId
    ensures |r| <= |ms|
  {
    if ms == [] then []
    else
      var rest := MoviesOf(ms[..|ms| - 1], cinemaId);
      var last := ms[|ms| - 1];
      assert ms == ms[..|ms| - 1] + [last];
      if last.cinemaId == cinemaId then rest + [last] else rest
  }

  /** The movies of every other cinema, in id order. */
  function MoviesNotOf(ms: seq<Movie>, cinemaId: int): (r: seq<Movie>)
    ensures forall m :: m in r <==> m in ms && m.cinemaId != cinemaId
    ensures |r| <= |ms|
  {
    if ms == [] then []
    else
      var rest := MoviesNotOf(ms[..|ms| - 1], cinemaId);
      var last := ms[|ms| - 1];
      assert ms == ms[..|ms| - 1] + [last];
      if last.cinemaId != cinemaId then rest + [last] else rest
  }

  /** The cinemas other than `id`. */
  function CinemasNot(cs: seq<Cinema>, id: int): (r: seq<Cinema>)
    ensures forall c :: c in r <==> c in cs && c.id != id
    ensures |r| <= |cs|
  {
    if cs == [] then []
    else
      var rest := CinemasNot(cs[..|cs| - 1], id);
      var last := cs[|cs| - 1];
      assert cs == cs[..|cs| - 1] + [last];
      if last.id != id then rest + [last] else rest
  }

  /** A cascading delete splits the movies in two: those removed with the
      cinema and those kept, with nothing lost or duplicated. */
  lemma {:induction false} CascadePartition(ms: seq<Movie>, cinemaId: int)
    ensures multiset(MoviesOf(ms, cinemaId)) + multiset(MoviesNotOf(ms, cinemaId)) == multiset(ms)
  {
    if ms != [] {
      var init, last := ms[..|ms| - 1], ms[|ms| - 1];
      CascadePartition(init, cinemaId);
      assert ms == init + [last];
    }
  }

  lemma IncreasingPrefix(ids: seq<int>, n: nat)
    requires Increasing(ids) && n <= |ids|
    ensures Increasing(ids[..n])
  {
    forall i, j | 0 <= i < j < n ensures ids[..n][i] < ids[..n][j] {
      assert ids[..n][i] == ids[i] && ids[..n][j] == ids[j];
    }
  }

  /** Every row before the last has a smaller id than the last. */
  lemma {:induction false} MovieBelowLast(ms: seq<Movie>, m: Movie)
    requires ms != [] && Increasing(MovieIds(ms)) && m in ms[..|ms| - 1]
    ensures m.id < ms[|ms| - 1].id
  {
    var k :| 0 <= k < |ms| - 1 && ms[..|ms| - 1][k] == m;
    assert ms[k] == m;
  }

  lemma {:induction false} CinemaBelowLast(cs: seq<Cinema>, c: Cinema)
    requires cs != [] && Increasing(CinemaIds(cs)) && c in cs[..|cs| - 1]
    ensures c.id < cs[|cs| - 1].id
  {
    var k :| 0 <= k < |cs| - 1 && cs[..|cs| - 1][k] == c;
    assert cs[k] == c;
  }

  /** Filtering by any test on the row keeps the ids in order. */
  lemma {:induction false} MoviesNotOfIncreasing(ms: seq<Movie>, cinemaId: int)
    requires Increasing(MovieIds(ms))
    ensures Increasing(MovieIds(MoviesNotOf(ms, cinemaId)))
  {
    if ms != [] {
      var init, last := ms[..|ms| - 1], ms[|ms| - 1];
      assert MovieIds(init) == MovieIds(ms)[..|ms| - 1];
      IncreasingPrefix(MovieIds(ms), |ms| - 1);
      MoviesNotOfIncreasing(init, cinemaId);
      var rest := MoviesNotOf(init, cinemaId);
      if last.cinemaId != cinemaId {
        forall i | 0 <= i < |rest| ensures MovieIds(rest)[i] < last.id {
          MovieBelowLast(ms, rest[i]);
        }
        AppendIncreasing(MovieIds(rest), last.id);
        assert MovieIds(rest + [last]) == MovieIds(rest) + [last.id];
      }
    }
  }

  lemma {:induction false} CinemasNotIncreasing(cs: seq<Cinema>, id: int)
    requires Increasing(CinemaIds(cs))
    ensures Increasing(CinemaIds(CinemasNot(cs, id)))
  {
    if cs != [] {
      var init, last := cs[..|cs| - 1], cs[|cs| - 1];
      assert CinemaIds(init) == CinemaIds(cs)[..|cs| - 1];
      IncreasingPrefix(CinemaIds(cs), |cs| - 1);
      CinemasNotIncreasing(init, id);
      var rest := CinemasNot(init, id);
      if last.id != id {
        forall i | 0 <= i < |rest| ensures CinemaIds(rest)[i] < last.id {
          CinemaBelowLast(cs, rest[i]);
        }
        AppendIncreasing(CinemaIds(rest), last.id);
        assert CinemaIds(rest + [last]) == CinemaIds(rest) + [last.id];
      }
    }
  }

  /** The movie after `update_movie`: each field given is replaced by its
      stripped text; the others, the id and the cinema are kept. */
  function Patched(m: Movie, name: Option<string>, genre: Option<string>): (r: Movie)
    ensures r.id == m.id && r.cinemaId == m.cinemaId
  {
    var n := if name.Some? then PyStr.Strip(name.value) else m.name;
    var g := if genre.Some? then PyStr.Strip(genre.value) else m.genre;
    m.(name := n, genre := g)
  }

  /** Rewriting a movie's row in place, under its id and cinema, keeps the
      id column and the foreign key. */
  lemma ReplaceKeepsKeys(cs: seq<Cinema>, ms: seq<Movie>, k: nat, m: Movie, ms': seq<Movie>)
    requires k < |ms| && m.id == ms[k].id && m.cinemaId == ms[k].cinemaId && ms' == ms[k := m]
    requires forall i :: 0 <= i < |ms| ==> HasCinema(cs, ms[i].cinemaId)
    ensures MovieIds(ms') == MovieIds(ms)
    ensures forall i :: 0 <= i < |ms'| ==> HasCinema(cs, ms'[i].cinemaId)
  {
    assert MovieIds(ms') == MovieIds(ms);
    forall i | 0 <= i < |ms'| ensures HasCinema(cs, ms'[i].cinemaId) {
      assert ms'[i].cinemaId == ms[i].cinemaId;
    }
  }

  lemma HasCinemaAppend(cs: seq<Cinema>, c: Cinema, id: int)
    requires HasCinema(cs, id)
    ensures HasCinema(cs + [c], id)
  {
    var k :| 0 <= k < |cs| && cs[k].id == id;
    assert (cs + [c])[k] == cs[k];
  }

  /** After a cascading delete every remaining movie still names a
      remaining cinema. */
  lemma CascadeKeepsForeignKey(cs: seq<Cinema>, ms: seq<Movie>, id: int)
    requires forall i :: 0 <= i < |ms| ==> HasCinema(cs, ms[i].cinemaId)
    ensures var kept := MoviesNotOf(ms, id);
      forall i :: 0 <= i < |kept| ==> HasCinema(CinemasNot(cs, id), kept[i].cinemaId)
  {
    var kept := MoviesNotOf(ms, id);
    forall i | 0 <= i < |kept| ensures HasCinema(CinemasNot(cs, id), kept[i].cinemaId) {
      var m := kept[i];
      assert m in ms;
      var j :| 0 <= j < |ms| && ms[j] == m;
      var k :| 0 <= k < |cs| && cs[k].id == m.cinemaId;
      var l :| 0 <= l < |CinemasNot(cs, id)| && CinemasNot(cs, id)[l] == cs[k];
    }
  }

  /** A cascade leaves the movies of every other cinema in place. */
  lemma CascadeKeepsOthers(ms: seq<Movie>, gone: int, other: int)
    requires gone != other
    ensures forall m :: m in MoviesNotOf(ms, gone) && m.cinemaId == other <==> m in ms && m.cinemaId == other
  {
  }

  /** After a delete no row carries the deleted id. */
  lemma CinemaGone(cs: seq<Cinema>, id: int)
    ensures !HasCinema(CinemasNot(cs, id), id)
  {
    var kept := CinemasNot(cs, id);
    forall i | 0 <= i < |kept| ensures kept[i].id != id {
      assert kept[i] in kept;
    }
  }

  lemma OtherCinemaKept(cs: seq<Cinema>, gone: int, other: int)
    requires HasCinema(cs, other) && gone != other
    ensures HasCinema(CinemasNot(cs, gone), other)
  {
    var k :| 0 <= k < |cs| && cs[k].id == other;
    var kept := CinemasNot(cs, gone);
    assert cs[k] in kept;
    var l :| 0 <= l < |kept| && kept[l] == cs[k];
  }

  /** An optional field fails `min_length=1` only when it is given and empty. */
  predicate ValidOptional(f: Option<string>) {
    f.None? || |f.value| >= 1
  }

  class Database {
    var cinemas: seq<Cinema>
    var movies: seq<Movie>

    /** Ids are unique and ascending in each table, and every movie's
        `cinema_id` names a stored cinema (the foreign key). */
    predicate Valid()
      reads this
    {
      && Increasing(CinemaIds(cinemas))
      && Increasing(MovieIds(movies))
      && forall i :: 0 <= i < |movies| ==> HasCinema(cinemas, movies[i].cinemaId)
    }

    /** Every stored row passes its response model. */
    predicate Shown()
      reads this
    {
      && (forall c :: c in cinemas ==> CinemaShown(c))
      && (forall m :: m in movies ==> MovieShown(m))
    }

    constructor()
      ensures Valid() && cinemas == [] && movies == []
    {
      cinemas := [];
      movies := [];
    }

    /** `list_cinemas`: every cinema, or 500 when one of them fails the
        response model. */
    function ListCinemas(): (r: Reply<seq<Cinema>>)
      reads this
      ensures r.Ok? <==> forall c :: c in cinemas ==> CinemaShown(c)
      ensures r.Ok? ==> |r.value| == |cinemas| && forall c :: c in r.value <==> c in cinemas
      ensures !r.Ok? ==> r == ServerError
    {
      if forall c :: c in cinemas ==> CinemaShown(c) then Ok(cinemas) else ServerError
    }

    /** `list_movies`: every movie, or those of one existing cinema; 500 when
        a listed movie fails the response model. */
    function ListMovies(cinemaId: Option<int>): (r: Reply<seq<Movie>>)
      reads this
      ensures cinemaId.None? ==> (r.Ok? <==> forall m :: m in movies ==> MovieShown(m))
      ensures cinemaId.None? && r.Ok? ==> r.value == movies
      ensures cinemaId.Some? && !HasCinema(cinemas, cinemaId.value) ==> r == NotFound
      ensures cinemaId.Some? && HasCinema(cinemas, cinemaId.value) ==>
        (r.Ok? <==> forall m :: m in movies && m.cinemaId == cinemaId.value ==> MovieShown(m))
      ensures cinemaId.Some? && HasCinema(cinemas, cinemaId.value) && r.Ok? ==>
        forall m :: m in r.value <==> m in movies && m.cinemaId == cinemaId.value
      ensures r.Ok? || r == NotFound || r == ServerError
    {
      if cinemaId.None? then MovieList(movies)
      else if FindId(CinemaIds(cinemas), cinemaId.value).None? then NotFound
      else MovieList(MoviesOf(movies, cinemaId.value))
    }

    /** `list_movies_by_cinema`: the movies of one existing cinema; 500 when
        one of them fails the response model. */
    function ListMoviesByCinema(cinemaId: int): (r: Reply<seq<Movie>>)
      reads this
      ensures !HasCinema(cinemas, cinemaId) ==> r == NotFound
      ensures HasCinema(cinemas, cinemaId) ==>
        (r.Ok? <==> forall m :: m in movies && m.cinemaId == cinemaId ==> MovieShown(m))
      ensures HasCinema(cinemas, cinemaId) && r.Ok? ==>
        forall m :: m in r.value <==> m in movies && m.cinemaId == cinemaId
      ensures r.Ok? || r == NotFound || r == ServerError
    {
      match FindId(CinemaIds(cinemas), cinemaId)
      case None => NotFound
      case Some(i) => MovieList(MoviesOf(movies, cinemaId))
    }

    /** The two listings of one cinema's movies agree. */
    lemma ListingsAgree(cinemaId: int)
      ensures ListMoviesByCinema(cinemaId) == ListMovies(Some(cinemaId))
    {
    }

    /** `create_cinema`. */
    method CreateCinema(name: string, address: string) returns (r: Reply<Cinema>)
      requires Valid()
      modifies this
      ensures Valid()
      ensures movies == old(movies)
      ensures |name| == 0 || |address| == 0 ==> r == Unprocessable && cinemas == old(cinemas)
      ensures |name| >= 1 && |address| >= 1 ==>
        var c := Cinema(NextId(CinemaIds(old(cinemas))), PyStr.Strip(name), PyStr.Strip(address));
        cinemas == old(cinemas) + [c] && !HasCinema(old(cinemas), c.id) &&
        (CinemaShown(c) ==> r == Ok(c)) && (!CinemaShown(c) ==> r == ServerError)
      ensures |name| >= 1 && |address| >= 1 ==>
        (r == ServerError <==> PyStr.AllSpace(name) || PyStr.AllSpace(address))
    {
      if |name| == 0 || |address| == 0 {
        return Unprocessable;
      }
      var c := Cinema(NextId(CinemaIds(cinemas)), PyStr.Strip(name), PyStr.Strip(address));
      AppendIncreasing(CinemaIds(cinemas), c.id);
      assert CinemaIds(cinemas + [c]) == CinemaIds(cinemas) + [c.id];
      forall i | 0 <= i < |movies| ensures HasCinema(cinemas + [c], movies[i].cinemaId) {
        HasCinemaAppend(cinemas, c, movies[i].cinemaId);
      }
      cinemas := cinemas + [c];
      r := if CinemaShown(c) then Ok(c) else ServerError;
    }

    /** `create_movie`. */
    method CreateMovie(name: string, genre: string, cinemaId: int) returns (r: Reply<Movie>)
      requires Valid()
      modifies this
      ensures Valid()
      ensures cinemas == old(cinemas)
      ensures |name| == 0 || |genre| == 0 ==> r == Unprocessable && movies == old(movies)
      ensures |name| >= 1 && |genre| >= 1 && !HasCinema(cinemas, cinemaId) ==>
        r == NotFound && movies == old(movies)
      ensures |name| >= 1 && |genre| >= 1 && HasCinema(cinemas, cinemaId) ==>
        var m := Movie(NextId(MovieIds(old(movies))), PyStr.Strip(name), PyStr.Strip(genre), cinemaId);
        movies == old(movies) + [m] &&
        (MovieShown(m) ==> r == Ok(m)) && (!MovieShown(m) ==> r == ServerError)
      ensures |name| >= 1 && |genre| >= 1 && HasCinema(cinemas, cinemaId) ==>
        (r == ServerError <==> PyStr.AllSpace(name) || PyStr.AllSpace(genre))
    {
      if |name| == 0 || |genre| == 0 {
        return Unprocessable;
      }
      if FindId(CinemaIds(cinemas), cinemaId).None? {
        return NotFound;
      }
      var m := Movie(NextId(MovieIds(movies)), PyStr.Strip(name), PyStr.Strip(genre), cinemaId);
      AppendIncreasing(MovieIds(movies), m.id);
      assert MovieIds(movies + [m]) == MovieIds(movies) + [m.id];
      movies := movies + [m];
      r := if MovieShown(m) then Ok(m) else ServerError;
    }

    /** `delete_cinema`: the cinema goes, and with it (through the cascading
        foreign key) every movie it shows. */
    method DeleteCinema(cinemaId: int) returns (r: Reply<()>)
      requires Valid()
      modifies this
      ensures Valid()
      ensures !HasCinema(old(cinemas), cinemaId) ==>
        r == NotFound && cinemas == old(cinemas) && movies == old(movies)
      ensures HasCinema(old(cinemas), cinemaId) ==>
        r == Ok(()) && cinemas == CinemasNot(old(cinemas), cinemaId) &&
        movies == MoviesNotOf(old(movies), cinemaId)
      ensures old(Shown()) ==> Shown()
    {
      if FindId(CinemaIds(cinemas), cinemaId).None? {
        return NotFound;
      }
      CinemasNotIncreasing(cinemas, cinemaId);
      MoviesNotOfIncreasing(movies, cinemaId);
      CascadeKeepsForeignKey(cinemas, movies, cinemaId);
      cinemas := CinemasNot(cinemas, cinemaId);
      movies := MoviesNotOf(movies, cinemaId);
      r := Ok(());
    }

    /** `update_movie`. */
    method UpdateMovie(movieId: int, name: Option<string>, genre: Option<string>) returns (r: Reply<Movie>)
      requires Valid()
      modifies this
      ensures Valid()
      ensures cinemas == old(cinemas)
      ensures !ValidOptional(name) || !ValidOptional(genre) ==> r == Unprocessable && movies == old(movies)
      ensures ValidOptional(name) && ValidOptional(genre) && FindId(MovieIds(old(movies)), movieId).None? ==>
        r == NotFound && movies == old(movies)
      ensures (ValidOptional(name) && ValidOptional(genre) && FindId(MovieIds(old(movies)), movieId).Some? &&
               name.None? && genre.None?) ==> r == BadRequest && movies == old(movies)
      ensures (ValidOptional(name) && ValidOptional(genre) && FindId(MovieIds(old(movies)), movieId).Some? &&
               (name.Some? || genre.Some?)) ==>
        var k := FindId(MovieIds(old(movies)), movieId).value;
        var m := Patched(old(movies)[k], name, genre);
        movies == old(movies)[k := m] &&
        (MovieShown(m) ==> r == Ok(m)) && (!MovieShown(m) ==> r == ServerError)
    {
      if !ValidOptional(name) || !ValidOptional(genre) {
        return Unprocessable;
      }
      var found := FindId(MovieIds(movies), movieId);
      if found.None? {
        return NotFound;
      }
      var k := found.value;
      var movie := movies[k];
      var updated := false;
      if name.Some? {
        movie := movie.(name := PyStr.Strip(name.value));
        updated := true;
      }
      if genre.Some? {
        movie := movie.(genre := PyStr.Strip(genre.value));
        updated := true;
      }
      if !updated {
        return BadRequest;
      }
      assert movie == Patched(movies[k], name, genre);
      ReplaceKeepsKeys(cinemas, movies, k, movie, movies[k := movie]);
      movies := movies[k := movie];
      r := if MovieShown(movie) then Ok(movie) else ServerError;
    }
  }

  /** Deleting a cinema and then listing its movies finds no cinema, and
      every movie of another cinema is still listed under it (or the
      listing answers 500 because one of them fails the response model). */
  method DeleteThenList(db: Database, gone: int, other: int)
    returns (deleted: Reply<()>, listed: Reply<seq<Movie>>)
    requires db.Valid() && HasCinema(db.cinemas, gone) && HasCinema(db.cinemas, other) && gone != other
    modifies db
    ensures deleted == Ok(())
    ensures listed.Ok? <==> forall m :: m in old(db.movies) && m.cinemaId == other ==> MovieShown(m)
    ensures listed.Ok? ==> forall m :: m in listed.value <==> m in old(db.movies) && m.cinemaId == other
    ensures !listed.Ok? ==> listed == ServerError
    ensures db.ListMoviesByCinema(gone) == NotFound
  {
    ghost var before := db.movies;
    deleted := db.DeleteCinema(gone);
    OtherCinemaKept(old(db.cinemas), gone, other);
    CascadeKeepsOthers(before, gone, other);
    CinemaGone(old(db.cinemas), gone);
    listed := db.ListMoviesByCinema(other);
  }

  /** Rewriting one row with a row that passes the response model keeps
      every row passing it. */
  lemma ReplaceShown(ms: seq<Movie>, k: nat, m: Movie)
    requires k < |ms| && MovieShown(m) && forall x :: x in ms ==> MovieShown(x)
    ensures forall x :: x in ms[k := m] ==> MovieShown(x)
  {
    forall x | x in ms[k := m] ensures MovieShown(x) {
      var i :| 0 <= i < |ms[k := m]| && ms[k := m][i] == x;
      if i != k {
        assert ms[i] in ms;
      }
    }
  }

  /** As written, `create_cinema` checks `min_length=1` before stripping: a
      whitespace-only name is committed as "" and then every listing of the
      cinemas answers 500. */
  method BlankNameCommitted(db: Database) returns (created: Reply<Cinema>, listed: Reply<seq<Cinema>>)
    requires db.Valid()
    modifies db
    ensures created == ServerError && |db.cinemas| == |old(db.cinemas)| + 1
    ensures listed == ServerError && db.ListCinemas() == ServerError
  {
    assert PyStr.AllSpace(" ");
    created := db.CreateCinema(" ", "A");
    var c := db.cinemas[|db.cinemas| - 1];
    assert c in db.cinemas && !CinemaShown(c);
    listed := db.ListCinemas();
  }

  /** The check `create_cinema`, `create_movie` and `update_movie` evidently
      intend: a text field that strips to "" is refused with 422. */
  predicate Filled(field: string) {
    !PyStr.AllSpace(field)
  }

  lemma FilledNonEmpty(field: string)
    requires Filled(field)
    ensures |field| >= 1 && |PyStr.Strip(field)| >= 1
  {
  }

  /** With the stripped check no stored row fails its response model, so no
      listing answers 500. */
  lemma ShownListsAnswer(db: Database, cinemaId: int)
    requires db.Shown()
    ensures db.ListCinemas().Ok?
    ensures db.ListMovies(None).Ok?
    ensures db.ListMovies(Some(cinemaId)) != ServerError
    ensures db.ListMoviesByCinema(cinemaId) != ServerError
  {
  }

  /** `create_cinema` with the stripped check. */
  method CreateCinemaChecked(db: Database, name: string, address: string) returns (r: Reply<Cinema>)
    requires db.Valid()
    modifies db
    ensures db.Valid() && (old(db.Shown()) ==> db.Shown())
    ensures r != ServerError
    ensures !Filled(name) || !Filled(address) ==>
      r == Unprocessable && db.cinemas == old(db.cinemas) && db.movies == old(db.movies)
    ensures Filled(name) && Filled(address) ==>
      && r == Ok(Cinema(NextId(CinemaIds(old(db.cinemas))), PyStr.Strip(name), PyStr.Strip(address)))
      && db.cinemas == old(db.cinemas) + [r.value] && db.movies == old(db.movies)
  {
    if !Filled(name) || !Filled(address) {
      return Unprocessable;
    }
    FilledNonEmpty(name);
    FilledNonEmpty(address);
    r := db.CreateCinema(name, address);
  }

  /** `create_movie` with the stripped check. */
  method CreateMovieChecked(db: Database, name: string, genre: string, cinemaId: int) returns (r: Reply<Movie>)
    requires db.Valid()
    modifies db
    ensures db.Valid() && (old(db.Shown()) ==> db.Shown())
    ensures r != ServerError
    ensures !Filled(name) || !Filled(genre) ==>
      r == Unprocessable && db.cinemas == old(db.cinemas) && db.movies == old(db.movies)
    ensures Filled(name) && Filled(genre) && !HasCinema(db.cinemas, cinemaId) ==>
      r == NotFound && db.movies == old(db.movies) && db.cinemas == old(db.cinemas)
    ensures Filled(name) && Filled(genre) && HasCinema(db.cinemas, cinemaId) ==>
      && r == Ok(Movie(NextId(MovieIds(old(db.movies))), PyStr.Strip(name), PyStr.Strip(genre), cinemaId))
      && db.movies == old(db.movies) + [r.value] && db.cinemas == old(db.cinemas)
  {
    if !Filled(name) || !Filled(genre) {
      return Unprocessable;
    }
    FilledNonEmpty(name);
    FilledNonEmpty(genre);
    r := db.CreateMovie(name, genre, cinemaId);
  }

  /** `update_movie` with the stripped check on each given field. */
  method UpdateMovieChecked(db: Database, movieId: int, name: Option<string>, genre: Option<string>)
    returns (r: Reply<Movie>)
    requires db.Valid() && db.Shown()
    modifies db
    ensures db.Valid() && db.Shown()
    ensures r != ServerError
    ensures (name.Some? && !Filled(name.value)) || (genre.Some? && !Filled(genre.value)) ==>
      r == Unprocessable && db.movies == old(db.movies)
    ensures (name.Some? ==> Filled(name.value)) && (genre.Some? ==> Filled(genre.value)) ==>
      (r == NotFound <==> FindId(MovieIds(old(db.movies)), movieId).None?) &&
      (r.Ok? <==> FindId(MovieIds(old(db.movies)), movieId).Some? && (name.Some? || genre.Some?))
    ensures r == NotFound || r == BadRequest || r == Unprocessable ==> db.movies == old(db.movies)
    ensures ((name.Some? ==> Filled(name.value)) && (genre.Some? ==> Filled(genre.value)) &&
             FindId(MovieIds(old(db.movies)), movieId).Some? && name.None? && genre.None?) ==> r == BadRequest
    ensures ((name.Some? ==> Filled(name.value)) && (genre.Some? ==> Filled(genre.value)) &&
             FindId(MovieIds(old(db.movies)), movieId).Some? && (name.Some? || genre.Some?)) ==>
      var k := FindId(MovieIds(old(db.movies)), movieId).value;
      var m := Patched(old(db.movies)[k], name, genre);
      r == Ok(m) && db.movies == old(db.movies)[k := m]
    ensures db.cinemas == old(db.cinemas)
  {
    if (name.Some? && !Filled(name.value)) || (genre.Some? && !Filled(genre.value)) {
      return Unprocessable;
    }
    if name.Some? {
      FilledNonEmpty(name.value);
    }
    if genre.Some? {
      FilledNonEmpty(genre.value);
    }
    var found := FindId(MovieIds(db.movies), movieId);
    ghost var before := db.movies;
    r := db.UpdateMovie(movieId, name, genre);
    if found.Some? && (name.Some? || genre.Some?) {
      var k := found.value;
      assert before[k] in before;
      ReplaceShown(before, k, Patched(before[k], name, genre));
    }
  }
}
