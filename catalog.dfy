/** The catalog matcher of MovieRepository: token-overlap scoring of catalog rows
    against a free-text query, the mirror-availability filter, and the ranked top 20. */
module Catalog {
  import opened Common
  import opened Sorting

  /** One row of the `Movies` table; every column may be NULL. */
  datatype Row = Row(
    name: Option<string>,
    fullName: Option<string>,
    year: Option<string>,
    link: Option<string>,
    poster: Option<string>)

  datatype MovieResult = MovieResult(
    title: string,
    link: string,
    score: int,
    posterLink: Option<string>,
    baseName: string,
    year: Option<int>)

  const MaxResults: nat := 20
  const TitleLimit: nat := 55
  const PhraseBonus: nat := 1000

  function ScoreOf(m: MovieResult): int { m.score }

  // ------------------------------------------------------------ mirror filter

  /** Some available server is a (case-sensitive) substring of the link. */
  predicate Servable(servers: seq<string>, link: string) {
    servers != [] && (Contains(link, servers[0]) || Servable(servers[1..], link))
  }

  /** `Servable` says that some server of the list occurs in the link. */
  lemma {:induction false} ServableIff(servers: seq<string>, link: string)
    ensures Servable(servers, link) <==> exists k :: 0 <= k < |servers| && Contains(link, servers[k])
  {
    if servers != [] {
      ServableIff(servers[1..], link);
      assert forall k :: 1 <= k < |servers| ==> servers[k] == servers[1..][k - 1];
      if exists k :: 0 <= k < |servers| && Contains(link, servers[k]) {
        var k :| 0 <= k < |servers| && Contains(link, servers[k]);
        if k > 0 { assert Contains(link, servers[1..][k - 1]); }
      }
    }
  }

  /** `isValidLink`: scans the servers in order and stops at the first one in `link`. */
  method IsValidLink(servers: seq<string>, link: string) returns (ok: bool)
    ensures ok <==> Servable(servers, link)
  {
    var k := 0;
    while k < |servers|
      invariant 0 <= k <= |servers|
      invariant Servable(servers, link) <==> Servable(servers[k..], link)
    {
      assert servers[k..][1..] == servers[k + 1..];
      if Contains(link, servers[k]) {
        return true;
      }
      k := k + 1;
    }
    return false;
  }

  // ------------------------------------------------------------ scoring

  /** How many times `q` occurs among `tags`. */
  function Occurrences(tags: seq<string>, q: string): (n: nat)
    ensures n <= |tags|
  {
    if tags == [] then 0
    else Occurrences(tags[..|tags| - 1], q) + (if tags[|tags| - 1] == q then 1 else 0)
  }

  /** The number of (query token, row token) pairs that are equal. */
  function PairCount(queries: seq<string>, tags: seq<string>): nat
  {
    if queries == [] then 0
    else PairCount(queries[..|queries| - 1], tags) + Occurrences(tags, queries[|queries| - 1])
  }

  /** The score of a row named `name` against the normalised query `query` whose tokens
      are `queries`. */
  function Score(queries: seq<string>, query: string, name: string): (s: int)
    ensures s >= 0
  {
    PairCount(queries, Tokens(Trim(Lower(name)))) + (if Contains(Trim(Lower(name)), query) then PhraseBonus else 0)
  }

  /** The nested `for` loops of `matchMovies` followed by the phrase bonus. */
  method ScoreRow(queries: seq<string>, query: string, movieName: string, tags: seq<string>)
    returns (score: int)
    ensures score == PairCount(queries, tags) + (if Contains(movieName, query) then PhraseBonus else 0)
  {
    score := 0;
    var i := 0;
    while i < |queries|
      invariant 0 <= i <= |queries|
      invariant score == PairCount(queries[..i], tags)
    {
      var j := 0;
      while j < |tags|
        invariant 0 <= j <= |tags|
        invariant score == PairCount(queries[..i], tags) + Occurrences(tags[..j], queries[i])
      {
        assert tags[..j + 1][..j] == tags[..j];
        if queries[i] == tags[j] {
          score := score + 1;
        }
        j := j + 1;
      }
      assert tags[..j] == tags;
      assert queries[..i + 1][..i] == queries[..i];
      i := i + 1;
    }
    assert queries[..i] == queries;
    if Contains(movieName, query) {
      score := score + PhraseBonus;
    }
  }

  lemma {:induction false} OccurrencesAppendFront(x: string, tags: seq<string>, q: string)
    ensures Occurrences([x] + tags, q) == (if x == q then 1 else 0) + Occurrences(tags, q)
    decreases |tags|
  {
    if tags != [] {
      var t := [x] + tags;
      assert t[..|t| - 1] == [x] + tags[..|tags| - 1];
      OccurrencesAppendFront(x, tags[..|tags| - 1], q);
    }
  }

  /** Appending a row token adds the number of equal query tokens. */
  lemma {:induction false} PairCountAppendTag(queries: seq<string>, tags: seq<string>, y: string)
    ensures PairCount(queries, tags + [y]) == PairCount(queries, tags) + Occurrences(queries, y)
    decreases |queries|
  {
    if queries != [] {
      PairCountAppendTag(queries[..|queries| - 1], tags, y);
      assert (tags + [y])[..|tags + [y]| - 1] == tags;
    }
  }

  /** The pair count is symmetric: swapping the roles of query and row tokens does not
      change the score, so no token position carries weight. */
  lemma {:induction false} PairCountSymmetric(a: seq<string>, b: seq<string>)
    ensures PairCount(a, b) == PairCount(b, a)
    decreases |b|
  {
    if b != [] {
      var b' := b[..|b| - 1];
      PairCountSymmetric(a, b');
      PairCountAppendTag(a, b', b[|b| - 1]);
      assert b' + [b[|b| - 1]] == b;
    } else {
      PairCountEmptyTags(a);
    }
  }

  lemma {:induction false} PairCountEmptyTags(a: seq<string>)
    ensures PairCount(a, []) == 0
    decreases |a|
  {
    if a != [] {
      PairCountEmptyTags(a[..|a| - 1]);
    }
  }

  /** Each query token can match each row token at most once. */
  lemma {:induction false} PairCountBound(queries: seq<string>, tags: seq<string>)
    ensures PairCount(queries, tags) <= |queries| * |tags|
    decreases |queries|
  {
    if queries != [] {
      PairCountBound(queries[..|queries| - 1], tags);
      assert (|queries| - 1) * |tags| + |tags| == |queries| * |tags|;
    }
  }

  /** The phrase bonus dominates: whenever there are fewer than 1000 token pairs to
      compare, the score reaches 1000 exactly when the row name contains the whole query. */
  lemma PhraseBonusDominates(queries: seq<string>, query: string, name: string)
    requires |queries| * |Tokens(Trim(Lower(name)))| < PhraseBonus
    ensures Score(queries, query, name) >= PhraseBonus <==> Contains(Trim(Lower(name)), query)
  {
    PairCountBound(queries, Tokens(Trim(Lower(name))));
  }

  // ------------------------------------------------------------ result rows

  /** Kotlin `String.toIntOrNull()`: an optional sign and decimal digits within the
      32-bit range. */
  function ParseInt(s: string): (r: Option<int>)
    ensures r.Some? ==> -0x8000_0000 <= r.value < 0x8000_0000
  {
    if s == [] then None
    else if s[0] == '-' || s[0] == '+' then
      if |s| == 1 then None
      else
        var d := ParseDigits(s[1..]);
        if d.None? then None
        else
          var v: int := if s[0] == '-' then -(d.value as int) else d.value as int;
          if -0x8000_0000 <= v < 0x8000_0000 then Some(v) else None
    else
      var d := ParseDigits(s);
      if d.Some? && d.value < 0x8000_0000 then Some(d.value) else None
  }

  lemma YearRoundTrip(y: nat)
    requires y < 0x8000_0000
    ensures ParseInt(NatToString(y)) == Some(y)
  {
    NatToStringRoundTrip(y);
  }

  const Ellipsis: string := "..."

  /** The displayed title is cut to 55 characters plus "..." when it is longer. */
  function TruncateTitle(title: string): (t: string)
    ensures |title| <= TitleLimit ==> t == title
    ensures |title| > TitleLimit ==> |t| == TitleLimit + |Ellipsis|
                                      && t[..TitleLimit] == title[..TitleLimit] && t[TitleLimit..] == Ellipsis
  {
    if |title| > TitleLimit then title[..TitleLimit] + Ellipsis else title
  }

  /** `(fullName ?: name).trim()`, truncated. */
  function DisplayTitle(name: string, fullName: Option<string>): string {
    TruncateTitle(Trim(fullName.GetOr(name)))
  }

  /** What one cursor row contributes: nothing when name or link is NULL or the link is
      blank, when the score is zero, or when no available server serves the link. */
  function RowMatch(servers: seq<string>, queries: seq<string>, query: string, row: Row): (r: seq<MovieResult>)
    ensures |r| <= 1
    ensures |r| == 1 ==> r[0].score > 0 && Servable(servers, r[0].link) && |r[0].title| <= TitleLimit + 3
    ensures |r| == 1 ==> BuiltFrom(r[0], row) && r[0].posterLink == row.poster
  {
    if row.name.None? || row.link.None? || IsBlank(row.link.value) then []
    else
      var score := Score(queries, query, row.name.value);
      if score > 0 && Servable(servers, row.link.value) then
        [MovieResult(
          title := DisplayTitle(row.name.value, row.fullName),
          link := row.link.value,
          score := score,
          posterLink := row.poster,
          baseName := row.name.value,
          year := if row.year.Some? then ParseInt(row.year.value) else None)]
      else []
  }

  /** `m` was built from `row`: its base name is the row's name and its link the row's link. */
  predicate BuiltFrom(m: MovieResult, row: Row) {
    row.name == Some(m.baseName) && row.link == Some(m.link)
  }

  /** The `matched` list after the cursor has visited `rows`, in catalog order. */
  function Candidates(servers: seq<string>, queries: seq<string>, query: string, rows: seq<Row>): (r: seq<MovieResult>)
    ensures |r| <= |rows|
    ensures forall k :: 0 <= k < |r| ==> r[k].score > 0 && Servable(servers, r[k].link)
    ensures forall k :: 0 <= k < |r| ==> |r[k].title| <= TitleLimit + 3
    ensures forall k :: 0 <= k < |r| ==> exists row :: row in rows && BuiltFrom(r[k], row)
  {
    if rows == [] then []
    else
      var init := rows[..|rows| - 1];
      var front := Candidates(servers, queries, query, init);
      var last := RowMatch(servers, queries, query, rows[|rows| - 1]);
      assert forall row :: row in init ==> row in rows;
      front + last
  }

  /** The query's year filter (`WHERE year = ?`), as exact equality on the column text. */
  function YearRows(rows: seq<Row>, year: Option<string>): (r: seq<Row>)
    ensures year.None? ==> r == rows
    ensures forall k :: 0 <= k < |r| ==> r[k] in rows
    ensures year.Some? ==> forall k :: 0 <= k < |r| ==> r[k].year == year
  {
    if year.None? || rows == [] then rows
    else if rows[0].year == year then [rows[0]] + YearRows(rows[1..], year)
    else YearRows(rows[1..], year)
  }

  /** The normalised query: trimmed, then lower-cased. */
  function NormalQuery(searchName: string): string {
    Lower(Trim(searchName))
  }

  /** What `matchMovies` returns, given the catalog (`None` when the database file is
      missing). */
  function MatchSpec(servers: seq<string>, searchName: string, year: Option<string>, db: Option<seq<Row>>): seq<MovieResult>
  {
    if IsBlank(searchName) || db.None? then []
    else
      var query := NormalQuery(searchName);
      var queries := Tokens(query);
      if queries == [] then []
      else Take(SortDesc(Candidates(servers, queries, query, YearRows(db.value, year)), ScoreOf), MaxResults)
  }

  /** The body of the cursor loop of `matchMovies` for one row. */
  method MatchRow(servers: seq<string>, queries: seq<string>, query: string, row: Row)
    returns (m: seq<MovieResult>)
    ensures m == RowMatch(servers, queries, query, row)
  {
    m := [];
    if row.name.Some? && row.link.Some? && !IsBlank(row.link.value) {
      var name, link := row.name.value, row.link.value;
      var movieName := Trim(Lower(name));
      var score := ScoreRow(queries, query, movieName, Tokens(movieName));
      if score > 0 {
        var valid := IsValidLink(servers, link);
        if valid {
          var yearValue := if row.year.Some? then ParseInt(row.year.value) else None;
          m := [MovieResult(DisplayTitle(name, row.fullName), link, score, row.poster, name, yearValue)];
        }
      }
    }
  }

  /** The cursor loop of `matchMovies`: visits the rows in order and appends what each
      contributes. */
  method CollectMatches(servers: seq<string>, queries: seq<string>, query: string, rows: seq<Row>)
    returns (matched: seq<MovieResult>)
    ensures matched == Candidates(servers, queries, query, rows)
  {
    matched := [];
    var i := 0;
    while i < |rows|
      invariant 0 <= i <= |rows|
      invariant matched == Candidates(servers, queries, query, rows[..i])
    {
      var m := MatchRow(servers, queries, query, rows[i]);
      assert rows[..i + 1][..i] == rows[..i] && rows[..i + 1][i] == rows[i];
      matched := matched + m;
      i := i + 1;
    }
    assert rows[..i] == rows;
  }

  /** `matchMovies`: normalises the query, runs the cursor loop over the rows that pass
      the year filter, then sorts by descending score and keeps the first 20. */
  method MatchMovies(servers: seq<string>, searchName: string, year: Option<string>, db: Option<seq<Row>>)
    returns (results: seq<MovieResult>)
    ensures results == MatchSpec(servers, searchName, year, db)
  {
    if IsBlank(searchName) || db.None? {
      return [];
    }
    var query := NormalQuery(searchName);
    var queries := Tokens(query);
    if queries == [] {
      return [];
    }
    var matched := CollectMatches(servers, queries, query, YearRows(db.value, year));
    results := Take(SortDesc(matched, ScoreOf), MaxResults);
  }

  // ------------------------------------------------------------ properties

  /** A blank query, a missing database or a query without tokens gives no results. */
  lemma MatchEmptyCases(servers: seq<string>, searchName: string, year: Option<string>, db: Option<seq<Row>>)
    requires IsBlank(searchName) || db.None? || Tokens(NormalQuery(searchName)) == []
    ensures MatchSpec(servers, searchName, year, db) == []
  {
  }

  /** Every result scores above zero, is served by an available server, has a title of at
      most 58 characters, and comes from a catalog row that passes the year filter, whose
      raw name is its `baseName`. */
  lemma MatchResultsValid(servers: seq<string>, searchName: string, year: Option<string>, db: Option<seq<Row>>)
    ensures var r := MatchSpec(servers, searchName, year, db);
            forall k :: 0 <= k < |r| ==>
              && r[k].score > 0
              && Servable(servers, r[k].link)
              && |r[k].title| <= TitleLimit + 3
              && exists row :: row in db.value && (year.Some? ==> row.year == year)
                   && row.name == Some(r[k].baseName) && row.link == Some(r[k].link)
  {
    var r := MatchSpec(servers, searchName, year, db);
    if r != [] {
      var query := NormalQuery(searchName);
      var queries := Tokens(query);
      assert r == Take(SortDesc(Candidates(servers, queries, query, YearRows(db.value, year)), ScoreOf), MaxResults);
      forall k | 0 <= k < |r|
        ensures r[k].score > 0 && Servable(servers, r[k].link) && |r[k].title| <= TitleLimit + 3
        ensures exists row :: row in db.value && (year.Some? ==> row.year == year)
                  && row.name == Some(r[k].baseName) && row.link == Some(r[k].link)
      {
        TopResultValid(servers, queries, query, db.value, year, k);
      }
    }
  }

  /** What `MatchResultsValid` states, for the `k`th of the ranked candidates. */
  lemma TopResultValid(servers: seq<string>, queries: seq<string>, query: string, db: seq<Row>, year: Option<string>, k: int)
    requires 0 <= k < |Take(SortDesc(Candidates(servers, queries, query, YearRows(db, year)), ScoreOf), MaxResults)|
    ensures var x := Take(SortDesc(Candidates(servers, queries, query, YearRows(db, year)), ScoreOf), MaxResults)[k];
            && x.score > 0 && Servable(servers, x.link) && |x.title| <= TitleLimit + 3
            && exists row :: row in db && (year.Some? ==> row.year == year)
                 && row.name == Some(x.baseName) && row.link == Some(x.link)
  {
    var rows := YearRows(db, year);
    var c := Candidates(servers, queries, query, rows);
    var x := Take(SortDesc(c, ScoreOf), MaxResults)[k];
    TopElement(c, ScoreOf, MaxResults, k);
    DrawnFromRows(servers, c, rows, db, year, x);
  }

  /** An element of a list of valid results built from rows that pass the year filter
      is valid and built from such a row. */
  lemma DrawnFromRows(servers: seq<string>, c: seq<MovieResult>, rows: seq<Row>, db: seq<Row>, year: Option<string>, x: MovieResult)
    requires forall k :: 0 <= k < |c| ==> c[k].score > 0 && Servable(servers, c[k].link) && |c[k].title| <= TitleLimit + 3
    requires forall k :: 0 <= k < |c| ==> exists row :: row in rows && BuiltFrom(c[k], row)
    requires forall k :: 0 <= k < |rows| ==> rows[k] in db
    requires year.Some? ==> forall k :: 0 <= k < |rows| ==> rows[k].year == year
    requires x in multiset(c)
    ensures x.score > 0 && Servable(servers, x.link) && |x.title| <= TitleLimit + 3
    ensures exists row :: row in db && (year.Some? ==> row.year == year) && BuiltFrom(x, row)
  {
    var m :| 0 <= m < |c| && c[m] == x;
    var row :| row in rows && BuiltFrom(x, row);
    var j :| 0 <= j < |rows| && rows[j] == row;
  }

  /** With no server available, nothing matches. */
  lemma MatchNoServers(searchName: string, year: Option<string>, db: Option<seq<Row>>)
    ensures MatchSpec([], searchName, year, db) == []
  {
    var r := MatchSpec([], searchName, year, db);
    MatchResultsValid([], searchName, year, db);
  }

  /** At most 20 results, non-increasing by score. */
  lemma MatchRanked(servers: seq<string>, searchName: string, year: Option<string>, db: Option<seq<Row>>)
    ensures var r := MatchSpec(servers, searchName, year, db);
            |r| <= MaxResults && SortedDesc(r, ScoreOf)
  {
    var r := MatchSpec(servers, searchName, year, db);
    if r != [] {
      var query := NormalQuery(searchName);
      var c := Candidates(servers, Tokens(query), query, YearRows(db.value, year));
      PrefixOfSorted(SortDesc(c, ScoreOf), ScoreOf, |r|);
    }
  }

  /** Stability and truncation: for every score, the results with that score are the
      first of the accepted catalog rows with that score, in catalog order; and a
      candidate that did not make the cut scores no higher than any result. */
  lemma MatchStableTop(servers: seq<string>, searchName: string, year: Option<string>, db: Option<seq<Row>>, v: int)
    requires !IsBlank(searchName) && db.Some? && Tokens(NormalQuery(searchName)) != []
    ensures var query := NormalQuery(searchName);
            var c := Candidates(servers, Tokens(query), query, YearRows(db.value, year));
            var r := MatchSpec(servers, searchName, year, db);
            var rv := WithKey(r, ScoreOf, v);
            && multiset(r) <= multiset(c)
            && |rv| <= |WithKey(c, ScoreOf, v)| && rv == WithKey(c, ScoreOf, v)[..|rv|]
            && (|r| < MaxResults ==> multiset(r) == multiset(c))
  {
    var query := NormalQuery(searchName);
    var c := Candidates(servers, Tokens(query), query, YearRows(db.value, year));
    TopDrawn(c, ScoreOf, MaxResults);
    TopStable(c, ScoreOf, MaxResults, v);
  }

  /** Results outrank everything left out: a candidate beyond the first 20 scores no
      higher than any result. */
  lemma MatchKeepsBest(servers: seq<string>, searchName: string, year: Option<string>, db: Option<seq<Row>>)
    requires !IsBlank(searchName) && db.Some? && Tokens(NormalQuery(searchName)) != []
    ensures var query := NormalQuery(searchName);
            var c := Candidates(servers, Tokens(query), query, YearRows(db.value, year));
            var r := MatchSpec(servers, searchName, year, db);
            forall m: MovieResult, k: int :: m in multiset(c) - multiset(r) && 0 <= k < |r| ==> m.score <= r[k].score
  {
    var query := NormalQuery(searchName);
    var c := Candidates(servers, Tokens(query), query, YearRows(db.value, year));
    var r := MatchSpec(servers, searchName, year, db);
    assert r == Take(SortDesc(c, ScoreOf), MaxResults);
    TopKeepsBest(c, ScoreOf, MaxResults);
    forall m: MovieResult, k: int | m in multiset(c) - multiset(r) && 0 <= k < |r| ensures m.score <= r[k].score {
      assert ScoreOf(m) <= ScoreOf(r[k]);
    }
  }
}
