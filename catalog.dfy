/** Normalisation of a movie-catalog search response into movie entries:
    the status gate, the five-result cutoff, and the per-record mapping of
    release date and poster path. The HTTP request itself is not modelled;
    the response's status code and its parsed `results` list are inputs. */
module Catalog {
  import opened Outcomes
  import opened Movies

  /** One raw record of the catalog's `results` list. A key that is missing
      or holds `null` is `None`. */
  datatype RawMovie = RawMovie(
    id: int,
    title: string,
    releaseDate: Option<string>,
    posterPath: Option<string>)

  /** Fixed image CDN base and width token prefixed to every poster path. */
  const ImageBase: string := "https://image.tmdb.org/t/p/w500"

  /** At most this many results are kept. */
  const ResultLimit: nat := 5

  /** Number of leading characters of the release date kept as the year. */
  const YearLength: nat := 4

  /** The only upstream status accepted as success. */
  const StatusOk: int := 200

  /** The error raised for every other upstream status. */
  const FetchFailed: Error := HttpError(400, "Failed to fetch movies")

  function Min(a: int, b: int): int
  {
    if a <= b then a else b
  }

  /** Python truthiness of an optional string: present and non-empty. */
  predicate Truthy(v: Option<string>)
  {
    v.Some? && v.value != ""
  }

  /** Python's `s[:n]` for a non-negative `n`. */
  function Take<T>(s: seq<T>, n: nat): (r: seq<T>)
    ensures |r| == Min(n, |s|)
    ensures forall i :: 0 <= i < |r| ==> r[i] == s[i]
  {
    if |s| <= n then s else s[..n]
  }

  /** The year shown for a release date: its first four characters (fewer
      when the date is shorter), absent when there is no date. */
  function Year(releaseDate: Option<string>): (r: Option<string>)
    ensures r.Some? <==> Truthy(releaseDate)
    ensures r.Some? ==> |r.value| == Min(YearLength, |releaseDate.value|)
                        && r.value == releaseDate.value[..|r.value|]
  {
    if Truthy(releaseDate) then Some(Take(releaseDate.value, YearLength)) else None
  }

  /** The fully qualified poster URL for a raw poster path, absent when there
      is no path. */
  function PosterUrl(posterPath: Option<string>): (r: Option<string>)
    ensures r.Some? <==> Truthy(posterPath)
    ensures r.Some? ==> |r.value| == |ImageBase| + |posterPath.value|
                        && r.value[..|ImageBase|] == ImageBase
                        && r.value[|ImageBase|..] == posterPath.value
  {
    if Truthy(posterPath) then Some(ImageBase + posterPath.value) else None
  }

  /** The raw poster path a poster URL was built from, if the URL carries
      the image base: the inverse of `PosterUrl`. */
  function RawPosterPath(url: string): (r: Option<string>)
    ensures r.Some? <==> |url| > |ImageBase| && url[..|ImageBase|] == ImageBase
    ensures r.Some? ==> ImageBase + r.value == url
  {
    if |url| > |ImageBase| && url[..|ImageBase|] == ImageBase then Some(url[|ImageBase|..]) else None
  }

  /** One raw record as a movie entry: identity copied, year and poster
      derived, and no rating. */
  function Normalize(raw: RawMovie): (m: Movie)
    ensures m.id == raw.id && m.title == raw.title
    ensures m.year == Year(raw.releaseDate) && m.posterPath == PosterUrl(raw.posterPath)
    ensures m.rating.None?
  {
    Movie(raw.id, raw.title, Year(raw.releaseDate), PosterUrl(raw.posterPath), None)
  }

  /** Every raw record normalised, in order. */
  function NormalizeAll(raws: seq<RawMovie>): (ms: seq<Movie>)
    ensures |ms| == |raws|
    ensures forall i :: 0 <= i < |raws| ==> ms[i] == Normalize(raws[i])
  {
    if raws == [] then [] else [Normalize(raws[0])] + NormalizeAll(raws[1..])
  }

  /** The search handler once the request has been answered: a non-200
      status fails with 400, otherwise the first five records are normalised. */
  function Search(status: int, results: seq<RawMovie>): (r: Result<seq<Movie>, Error>)
    ensures r.Failure? <==> status != StatusOk
    ensures r.Failure? ==> r.error == FetchFailed
    ensures r.Success? ==> |r.value| == Min(ResultLimit, |results|)
    ensures r.Success? ==> forall i :: 0 <= i < |r.value| ==> r.value[i] == Normalize(results[i])
  {
    if status != StatusOk then Failure(FetchFailed)
    else Success(NormalizeAll(Take(results, ResultLimit)))
  }

  /** A poster URL determines the raw path it was built from, and the same
      raw path always yields the same URL. */
  lemma PosterUrlRoundTrip(posterPath: Option<string>)
    requires Truthy(posterPath)
    ensures PosterUrl(posterPath).Some?
    ensures RawPosterPath(PosterUrl(posterPath).value) == posterPath
  {
    var url := PosterUrl(posterPath).value;
    assert url[..|ImageBase|] == ImageBase;
  }

  /** Two present raw poster paths give the same URL only if they are equal. */
  lemma PosterUrlInjective(p: Option<string>, q: Option<string>)
    requires Truthy(p) && Truthy(q)
    requires PosterUrl(p) == PosterUrl(q)
    ensures p == q
  {
    PosterUrlRoundTrip(p);
    PosterUrlRoundTrip(q);
  }

  /** An ISO date (`YYYY-MM-DD` or anything at least four long) gives a year
      of exactly four characters. */
  lemma YearOfFullDate(d: string)
    requires |d| >= YearLength
    ensures Year(Some(d)) == Some(d[..YearLength])
  {
  }

  /** Normalising a concatenation normalises each part. */
  lemma {:induction false} NormalizeAllAppend(a: seq<RawMovie>, b: seq<RawMovie>)
    ensures NormalizeAll(a + b) == NormalizeAll(a) + NormalizeAll(b)
  {
    if a == [] {
      assert a + b == b;
    } else {
      assert (a + b)[1..] == a[1..] + b;
      NormalizeAllAppend(a[1..], b);
    }
  }

  /** Only the first five raw records matter: records after them never
      change a search result. */
  lemma SearchIgnoresTail(status: int, results: seq<RawMovie>, extra: seq<RawMovie>)
    requires |results| >= ResultLimit
    ensures Search(status, results + extra) == Search(status, results)
  {
    if status == StatusOk {
      assert Take(results + extra, ResultLimit) == Take(results, ResultLimit);
    }
  }

  /** Searching over a prefix of the raw records gives a prefix of the
      search over all of them: the order of results is kept. */
  lemma SearchPrefix(status: int, results: seq<RawMovie>, n: nat)
    requires n <= |results|
    requires status == StatusOk
    ensures Search(status, results[..n]).Success? && Search(status, results).Success?
    ensures Search(status, results[..n]).value <= Search(status, results).value
  {
  }

  /** The ids of a successful search are the ids of the first five raw
      records, in the same order, and no result carries a rating. */
  lemma SearchIds(status: int, results: seq<RawMovie>)
    requires status == StatusOk
    ensures Search(status, results).Success?
    ensures forall m :: m in Search(status, results).value ==> m.rating.None?
    ensures forall i :: 0 <= i < Min(ResultLimit, |results|) ==>
              Search(status, results).value[i].id == results[i].id
              && Search(status, results).value[i].title == results[i].title
  {
  }
}
