/** The SQLite `movies` table of rated movies: `id INTEGER PRIMARY KEY`,
    `title` and `rating` NOT NULL, `year` and `poster_path` nullable. The
    connection, cursor and commit are abstracted to a table held in memory:
    a statement either takes full effect or, when it fails, none. The rows
    are held in some storage order, but every contract speaks of the table
    keyed by id, so no listing order is promised. */
module Store {
  import opened Outcomes
  import opened Movies

  /** One stored row. */
  datatype Record = Record(id: int, title: string, year: Option<string>, posterPath: Option<string>, rating: int)

  const MinRating: int := 1
  const MaxRating: int := 5

  /** The 400 error `add_movie` raises for a rating outside 1..5. */
  const BadRating: Error := HttpError(400, "Rating must be between 1 and 5")

  /** What SQLite reports for an insert whose id is already stored. */
  const DuplicateId: Error := IntegrityError("UNIQUE constraint failed: movies.id")

  /** What SQLite reports for a statement on a table not yet created. */
  const NoSuchTable: Error := OperationalError("no such table: movies")

  /** What Python's sqlite3 raises when binding an id outside SQLite's
      64-bit INTEGER range. */
  const IdOverflow: Error := OverflowError("Python int too large to convert to SQLite INTEGER")

  /** The range of a 64-bit signed SQLite INTEGER. */
  predicate FitsInteger(n: int)
  {
    -0x8000_0000_0000_0000 <= n < 0x8000_0000_0000_0000
  }

  predicate ValidRating(rating: int)
  {
    MinRating <= rating <= MaxRating
  }

  /** The PRIMARY KEY constraint: no two rows share an id. */
  ghost predicate Distinct(rs: seq<Record>)
  {
    forall i, j :: 0 <= i < j < |rs| ==> rs[i].id != rs[j].id
  }

  /** Whether some stored row has this id. */
  predicate HasId(rs: seq<Record>, id: int)
  {
    exists i :: 0 <= i < |rs| && rs[i].id == id
  }

  /** The table as SQL sees it: rows looked up by their primary key. */
  ghost function Keyed(rs: seq<Record>): map<int, Record>
  {
    if rs == [] then map[] else Keyed(rs[..|rs| - 1])[rs[|rs| - 1].id := rs[|rs| - 1]]
  }

  /** The keys of the keyed table are the stored ids, and each key leads to
      a row carrying that id. */
  lemma {:induction false} KeyedKeys(rs: seq<Record>, id: int)
    ensures id in Keyed(rs) <==> HasId(rs, id)
    ensures id in Keyed(rs) ==> Keyed(rs)[id].id == id
  {
    if rs != [] {
      var init := rs[..|rs| - 1];
      KeyedKeys(init, id);
      if HasId(init, id) {
        var i :| 0 <= i < |init| && init[i].id == id;
        assert rs[i].id == id;
      }
      if HasId(rs, id) && id != rs[|rs| - 1].id {
        var i :| 0 <= i < |rs| && rs[i].id == id;
        assert init[i].id == id;
      }
    }
  }

  /** With distinct ids, every stored row is what its id leads to, and the
      keyed table has one entry per row. */
  lemma {:induction false} KeyedRows(rs: seq<Record>)
    requires Distinct(rs)
    ensures forall i :: 0 <= i < |rs| ==> rs[i].id in Keyed(rs) && Keyed(rs)[rs[i].id] == rs[i]
    ensures |Keyed(rs)| == |rs|
  {
    if rs != [] {
      var init := rs[..|rs| - 1];
      var last := rs[|rs| - 1];
      KeyedRows(init);
      assert forall i :: 0 <= i < |init| ==> init[i].id != last.id;
      KeyedKeys(init, last.id);
    }
  }

  /** Appending a row with a fresh id adds exactly that key. */
  lemma KeyedAppend(rs: seq<Record>, r: Record)
    ensures Keyed(rs + [r]) == Keyed(rs)[r.id := r]
  {
    assert (rs + [r])[..|rs|] == rs;
  }

  /** A stored row as the movie entry the home page lists. */
  function RecordMovie(r: Record): (m: Movie)
    ensures m.id == r.id && m.title == r.title
    ensures m.year == r.year && m.posterPath == r.posterPath
    ensures m.rating == Some(r.rating)
  {
    Movie(r.id, r.title, r.year, r.posterPath, Some(r.rating))
  }

  /** Every fetched row as a movie entry. */
  function RecordMovies(rs: seq<Record>): (ms: seq<Movie>)
    ensures |ms| == |rs|
    ensures forall i :: 0 <= i < |rs| ==> ms[i] == RecordMovie(rs[i])
  {
    if rs == [] then [] else [RecordMovie(rs[0])] + RecordMovies(rs[1..])
  }

  /** `ms` lists `table`: each row exactly once with its fields unchanged,
      and nothing else, in no promised order. */
  ghost predicate Lists(ms: seq<Movie>, table: map<int, Record>)
  {
    && |ms| == |table|
    && (forall i :: 0 <= i < |ms| ==> ms[i].id in table && ms[i] == RecordMovie(table[ms[i].id]))
    && (forall id :: id in table ==> exists i :: 0 <= i < |ms| && ms[i].id == id)
    && (forall i, j :: 0 <= i < j < |ms| ==> ms[i].id != ms[j].id)
  }

  /** Converting the fetched rows lists the table. */
  lemma ListsTable(rs: seq<Record>)
    requires Distinct(rs)
    ensures Lists(RecordMovies(rs), Keyed(rs))
  {
    var ms := RecordMovies(rs);
    KeyedRows(rs);
    forall id | id in Keyed(rs)
      ensures exists i :: 0 <= i < |ms| && ms[i].id == id
    {
      KeyedKeys(rs, id);
      var i :| 0 <= i < |rs| && rs[i].id == id;
      assert ms[i].id == id;
    }
  }

  class MovieTable {
    /** Whether `CREATE TABLE` has run on this database. */
    var created: bool
    /** The stored rows, in storage order. */
    var records: seq<Record>

    /** No rows exist before the table does, ids are unique 64-bit integers,
        and every stored rating is in 1..5 (the only writer, `Add`, checks it). */
    ghost predicate Valid()
      reads this
    {
      && (!created ==> records == [])
      && Distinct(records)
      && (forall i :: 0 <= i < |records| ==> FitsInteger(records[i].id))
      && (forall i :: 0 <= i < |records| ==> ValidRating(records[i].rating))
    }

    /** The table keyed by id. */
    ghost function Table(): map<int, Record>
      reads this
    {
      Keyed(records)
    }

    /** A database file on which the table has not been created yet. */
    constructor ()
      ensures Valid() && !created && Table() == map[]
    {
      created := false;
      records := [];
    }

    /** `CREATE TABLE IF NOT EXISTS`: afterwards the table exists, and rows
        already stored are kept, so running it again changes nothing. */
    method Init()
      requires Valid()
      modifies this
      ensures Valid() && created
      ensures records == old(records)
    {
      if !created {
        created := true;
        records := [];
      }
    }

    /** `add_movie`: the rating gate, then one `INSERT`, which SQLite
        prepares (the table must exist), binds (the id must fit a 64-bit
        INTEGER) and runs (the id must be new). A failed insert commits
        nothing. */
    method Add(id: int, title: string, year: Option<string>, posterPath: Option<string>, rating: int)
      returns (outcome: Outcome<Error>)
      requires Valid()
      modifies this
      ensures Valid() && created == old(created)
      ensures !ValidRating(rating) ==> outcome == Fail(BadRating)
      ensures ValidRating(rating) && !created ==> outcome == Fail(NoSuchTable)
      ensures ValidRating(rating) && created && !FitsInteger(id) ==> outcome == Fail(IdOverflow)
      ensures ValidRating(rating) && created && FitsInteger(id) && id in old(Table()) ==> outcome == Fail(DuplicateId)
      ensures outcome.Pass? <==> ValidRating(rating) && created && FitsInteger(id) && id !in old(Table())
      ensures outcome.Pass? ==> Table() == old(Table())[id := Record(id, title, year, posterPath, rating)]
      ensures outcome.Pass? ==> |Table()| == |old(Table())| + 1
      ensures outcome.Fail? ==> records == old(records)
    {
      if rating < MinRating || rating > MaxRating {
        return Fail(BadRating);
      }
      if !created {
        return Fail(NoSuchTable);
      }
      if !FitsInteger(id) {
        return Fail(IdOverflow);
      }
      KeyedKeys(records, id);
      if HasId(records, id) {
        return Fail(DuplicateId);
      }
      var r := Record(id, title, year, posterPath, rating);
      KeyedAppend(records, r);
      records := records + [r];
      KeyedRows(records);
      KeyedRows(old(records));
      outcome := Pass;
    }

    /** `SELECT * FROM movies` turned into movie entries: every stored row
        once, with its fields unchanged and its rating present. */
    method ListAll() returns (result: Result<seq<Movie>, Error>)
      requires Valid()
      ensures result.Failure? <==> !created
      ensures result.Failure? ==> result.error == NoSuchTable
      ensures result.Success? ==> Lists(result.value, Table())
      ensures result.Success? ==> forall m :: m in result.value ==> m.rating.Some? && ValidRating(m.rating.value)
    {
      if !created {
        return Failure(NoSuchTable);
      }
      ListsTable(records);
      result := Success(RecordMovies(records));
    }

    /** Adding a movie with a valid rating and a fresh id and then listing
        the table shows the submitted fields, rating included, beside every
        row that was there before. */
    method AddThenList(id: int, title: string, year: Option<string>, posterPath: Option<string>, rating: int)
      returns (listed: Result<seq<Movie>, Error>)
      requires Valid() && created
      requires ValidRating(rating) && FitsInteger(id) && id !in Table()
      modifies this
      ensures Valid()
      ensures listed.Success?
      ensures Movie(id, title, year, posterPath, Some(rating)) in listed.value
      ensures forall k :: k in old(Table()) ==> RecordMovie(old(Table())[k]) in listed.value
      ensures |listed.value| == |old(Table())| + 1
    {
      ghost var before := Table();
      var outcome := Add(id, title, year, posterPath, rating);
      listed := ListAll();
      assert id in Table();
      var i :| 0 <= i < |listed.value| && listed.value[i].id == id;
      assert listed.value[i] == Movie(id, title, year, posterPath, Some(rating));
      forall k | k in before
        ensures RecordMovie(before[k]) in listed.value
      {
        assert k in Table();
        var j :| 0 <= j < |listed.value| && listed.value[j].id == k;
        assert listed.value[j] == RecordMovie(before[k]);
      }
    }
  }
}
