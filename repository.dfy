/** The file, cache and network helpers of `MovieRepository`: the poster-file name, the
    SQLite header check, the choice of the database entry in a downloaded zip, the
    three-attempt database download, the cache persistence filters, the ping URL and
    the OMDb poster choice. Files are optional byte sequences (`None` for a file that
    does not exist); network replies and the zip decoder are inputs. */
module Repository {
  import opened Common
  import opened Json

  // ------------------------------------------------------------ poster file names

  /** The characters that survive `replace(Regex("[^a-z0-9]+"), "_")`. */
  predicate IsKeyChar(c: char) {
    ('a' <= c <= 'z') || ('0' <= c <= '9')
  }

  /** Drops the rest of a run of characters the regex would replace. */
  function SkipRun(s: string): (r: string)
    ensures |r| <= |s|
    ensures r == [] || IsKeyChar(r[0])
  {
    if s == [] || IsKeyChar(s[0]) then s else SkipRun(s[1..])
  }

  /** `replace(Regex("[^a-z0-9]+"), "_")`: every maximal run of other characters
      becomes a single '_'. */
  function ReplaceRuns(s: string): (r: string)
    decreases |s|
  {
    if s == [] then []
    else if IsKeyChar(s[0]) then [s[0]] + ReplaceRuns(s[1..])
    else "_" + ReplaceRuns(SkipRun(s[1..]))
  }

  /** Only [a-z0-9_] and no two '_' in a row. */
  predicate StemChars(t: string) {
    (forall i :: 0 <= i < |t| ==> IsKeyChar(t[i]) || t[i] == '_')
    && (forall i :: 0 <= i < |t| - 1 ==> !(t[i] == '_' && t[i + 1] == '_'))
  }

  /** What a sanitised poster key looks like: [a-z0-9_] only, no "__", and no '_' at
      either end. */
  predicate IsStem(t: string) {
    StemChars(t) && (t == [] || (t[0] != '_' && t[|t| - 1] != '_'))
  }

  /** The file stem of `posterFileForKey`: lower-cased, runs of other characters
      replaced by '_', then '_' trimmed from both ends. */
  function PosterStem(key: string): string {
    TrimChar(ReplaceRuns(Lower(key)), '_')
  }

  /** `File(posterDir, "$safe.jpg")`. */
  function PosterFile(posterDir: string, key: string): string {
    posterDir + "/" + PosterStem(key) + ".jpg"
  }

  lemma {:induction false} ReplaceRunsShape(s: string)
    ensures var r := ReplaceRuns(s);
            StemChars(r) && (r != [] && r[0] == '_' <==> s != [] && !IsKeyChar(s[0]))
    decreases |s|
  {
    if s != [] {
      var r := ReplaceRuns(s);
      if IsKeyChar(s[0]) {
        ReplaceRunsShape(s[1..]);
        assert r == [s[0]] + ReplaceRuns(s[1..]);
      } else {
        var rest := SkipRun(s[1..]);
        ReplaceRunsShape(rest);
        assert r == "_" + ReplaceRuns(rest);
      }
    }
  }

  /** A slice of a string with `StemChars` has `StemChars`. */
  lemma StemCharsSlice(t: string, i: nat, j: nat)
    requires StemChars(t) && i <= j <= |t|
    ensures StemChars(t[i..j])
  {
    var u := t[i..j];
    assert forall k :: 0 <= k < |u| ==> u[k] == t[i + k];
  }

  /** Trimming '_' from a string without "__" leaves no '_' at either end and keeps it
      a slice of the original. */
  lemma {:induction false} TrimUnderscoreSlice(t: string)
    ensures exists i, j :: 0 <= i <= j <= |t| && TrimChar(t, '_') == t[i..j]
  {
    TrimCharStartSuffix(t, '_');
    var a := TrimCharStart(t, '_');
    TrimCharEndPrefix(a, '_');
    var b := TrimCharEnd(a, '_');
    var i := |t| - |a|;
    assert b == t[i..i + |b|];
  }

  /** The poster file stem is made of [a-z0-9_] only, has no "__", and does not begin
      or end with '_'. */
  lemma PosterStemShape(key: string)
    ensures IsStem(PosterStem(key))
  {
    var r := ReplaceRuns(Lower(key));
    ReplaceRunsShape(Lower(key));
    TrimUnderscoreSlice(r);
    var i, j :| 0 <= i <= j <= |r| && TrimChar(r, '_') == r[i..j];
    StemCharsSlice(r, i, j);
  }

  lemma {:induction false} LowerOfStem(t: string)
    requires StemChars(t)
    ensures Lower(t) == t
  {
    if t != [] {
      StemCharsSlice(t, 1, |t|);
      LowerOfStem(t[1..]);
    }
  }

  lemma {:induction false} ReplaceRunsOfStem(t: string)
    requires StemChars(t)
    ensures ReplaceRuns(t) == t
    decreases |t|
  {
    if t != [] {
      StemCharsSlice(t, 1, |t|);
      ReplaceRunsOfStem(t[1..]);
      if !IsKeyChar(t[0]) {
        assert t[1..] == [] || IsKeyChar(t[1]);
        assert SkipRun(t[1..]) == t[1..];
      }
    }
  }

  /** Sanitising an already sanitised stem gives it back unchanged. */
  lemma PosterStemIdempotent(key: string)
    ensures PosterStem(PosterStem(key)) == PosterStem(key)
  {
    var t := PosterStem(key);
    PosterStemShape(key);
    LowerOfStem(t);
    ReplaceRunsOfStem(t);
  }

  /** `getLocalPosterPath`: `None` for a blank key or when no file of that name exists
      among `existing`. */
  function LocalPosterPath(posterDir: string, existing: set<string>, key: string): (r: Option<string>)
    ensures r.Some? <==> !IsBlank(key) && PosterFile(posterDir, key) in existing
    ensures r.Some? ==> r.value == PosterFile(posterDir, key)
  {
    if IsBlank(key) then None
    else if PosterFile(posterDir, key) in existing then Some(PosterFile(posterDir, key))
    else None
  }

  // ------------------------------------------------------------ SQLite header

  /** "SQLite format 3" followed by a NUL byte, the first 16 bytes of every SQLite file. */
  const SqliteText: string := "SQLite format 3\U{0}"

  /** The header as bytes. */
  const SqliteMagic: seq<byte> := [0x53, 0x51, 0x4c, 0x69, 0x74, 0x65, 0x20, 0x66,
                                   0x6f, 0x72, 0x6d, 0x61, 0x74, 0x20, 0x33, 0x00]

  /** The header bytes are the ASCII encoding of the header text. */
  lemma SqliteMagicBytes()
    ensures SqliteMagic == AsciiBytes(SqliteText)
  {
    var m := AsciiBytes(SqliteText);
    assert m[0] as int == 'S' as int && m[15] as int == 0;
  }

  /** `isValidSqlite`: the file exists, has at least 16 bytes, and its first 16 bytes are
      the SQLite magic header. */
  function IsValidSqlite(file: Option<seq<byte>>): (ok: bool)
    ensures ok <==> file.Some? && |file.value| >= 16 && file.value[..16] == SqliteMagic
  {
    if file.None? || |file.value| < 16 then false
    else file.value[..16] == SqliteMagic
  }

  // ------------------------------------------------------------ zip entries

  datatype ZipEntry = ZipEntry(name: string, isDirectory: bool, data: seq<byte>)

  /** The entry `unzipDb` extracts: a file whose lower-cased name ends in ".db" or
      contains "movie_database". */
  predicate IsDbEntry(e: ZipEntry) {
    !e.isDirectory && (EndsWith(Lower(e.name), ".db") || Contains(Lower(e.name), "movie_database"))
  }

  /** The index of the first database entry. */
  function FirstDbEntry(entries: seq<ZipEntry>): (r: Option<nat>)
    ensures r.Some? ==> r.value < |entries| && IsDbEntry(entries[r.value])
                        && forall j :: 0 <= j < r.value ==> !IsDbEntry(entries[j])
    ensures r.None? ==> forall j :: 0 <= j < |entries| ==> !IsDbEntry(entries[j])
  {
    if entries == [] then None
    else if IsDbEntry(entries[0]) then Some(0)
    else
      var rest := FirstDbEntry(entries[1..]);
      assert forall j :: 1 <= j < |entries| ==> entries[j] == entries[1..][j - 1];
      if rest.Some? then Some(rest.value + 1) else None
  }

  /** What `unzipDb` writes to the temporary database file, or the error it throws. */
  function UnzipSpec(zip: Option<seq<ZipEntry>>): Result<seq<byte>, string> {
    if zip.None? then Failure("Zip file missing")
    else
      var k := FirstDbEntry(zip.value);
      if k.Some? then Success(zip.value[k.value].data) else Failure("DB file not found in zip")
  }

  /** `unzipDb`: walks the entries and extracts the first database entry. */
  method UnzipDb(zip: Option<seq<ZipEntry>>) returns (r: Result<seq<byte>, string>)
    ensures r == UnzipSpec(zip)
  {
    if zip.None? {
      return Failure("Zip file missing");
    }
    var entries := zip.value;
    var i := 0;
    while i < |entries|
      invariant 0 <= i <= |entries|
      invariant forall j :: 0 <= j < i ==> !IsDbEntry(entries[j])
    {
      if IsDbEntry(entries[i]) {
        return Success(entries[i].data);
      }
      i := i + 1;
    }
    return Failure("DB file not found in zip");
  }

  // ------------------------------------------------------------ database download

  /** What one HTTP attempt delivers: an error (a non-2xx code, a missing body, a broken
      connection) or the bytes of the body. */
  datatype Fetch = FetchFailed(error: string) | Fetched(body: seq<byte>)

  /** The database a single attempt yields, or the message of the exception it throws:
      a zip URL is unpacked first, and the result must pass the SQLite header check. */
  function AttemptOutcome(isZip: bool, unzip: seq<byte> -> seq<ZipEntry>, f: Fetch): (r: Result<seq<byte>, string>)
    ensures r.Success? ==> IsValidSqlite(Some(r.value))
    ensures f.FetchFailed? ==> r == Failure(f.error)
  {
    if f.FetchFailed? then Failure(f.error)
    else
      var file := if isZip then UnzipSpec(Some(unzip(f.body))) else Success(f.body);
      if file.Failure? then file
      else if !IsValidSqlite(Some(file.value)) then Failure("Downloaded DB is not valid")
      else file
  }

  const Attempts: nat := 3

  /** The delay after the failed attempt `k` (`delay(1500L * (attempt + 1))`), taken only
      when another attempt follows. */
  function Backoff(failures: nat): seq<nat>
    requires failures <= Attempts
  {
    if failures == 0 then []
    else if failures == Attempts then Backoff(Attempts - 1)
    else Backoff(failures - 1) + [1500 * failures]
  }

  /** After `k` failures the delays slept are 1500, 3000, ... ms, one fewer than the
      failures once all attempts have failed. */
  lemma {:induction false} BackoffSpec(failures: nat)
    requires failures <= Attempts
    ensures |Backoff(failures)| == if failures < Attempts then failures else Attempts - 1
    ensures forall k :: 0 <= k < |Backoff(failures)| ==> Backoff(failures)[k] == 1500 * (k + 1)
  {
    if failures == Attempts {
      BackoffSpec(Attempts - 1);
    } else if failures > 0 {
      BackoffSpec(failures - 1);
    }
  }

  /** The index of the first successful attempt among the first `n`. */
  function FirstSuccess(isZip: bool, unzip: seq<byte> -> seq<ZipEntry>, fetches: seq<Fetch>, n: nat): (r: Option<nat>)
    requires n <= |fetches|
    ensures r.Some? ==> r.value < n && AttemptOutcome(isZip, unzip, fetches[r.value]).Success?
  {
    if n == 0 then None
    else
      var before := FirstSuccess(isZip, unzip, fetches, n - 1);
      if before.Some? then before
      else if AttemptOutcome(isZip, unzip, fetches[n - 1]).Success? then Some(n - 1)
      else None
  }

  /** The first success is an attempt that succeeded after only failures, and there is
      none when every attempt failed. */
  lemma {:induction false} FirstSuccessSpec(isZip: bool, unzip: seq<byte> -> seq<ZipEntry>, fetches: seq<Fetch>, n: nat)
    requires n <= |fetches|
    ensures var r := FirstSuccess(isZip, unzip, fetches, n);
            && (r.Some? ==> r.value < n && AttemptOutcome(isZip, unzip, fetches[r.value]).Success?
                            && forall j :: 0 <= j < r.value ==> AttemptOutcome(isZip, unzip, fetches[j]).Failure?)
            && (r.None? ==> forall j :: 0 <= j < n ==> AttemptOutcome(isZip, unzip, fetches[j]).Failure?)
  {
    if n > 0 {
      FirstSuccessSpec(isZip, unzip, fetches, n - 1);
    }
  }

  /** Once an attempt has succeeded, later attempts do not change which was first. */
  lemma {:induction false} FirstSuccessStays(isZip: bool, unzip: seq<byte> -> seq<ZipEntry>, fetches: seq<Fetch>, m: nat, n: nat)
    requires m <= n <= |fetches|
    requires FirstSuccess(isZip, unzip, fetches, m).Some?
    ensures FirstSuccess(isZip, unzip, fetches, n) == FirstSuccess(isZip, unzip, fetches, m)
    decreases n - m
  {
    if m < n {
      FirstSuccessStays(isZip, unzip, fetches, m, n - 1);
    }
  }

  /** A URL ending in ".zip", in any case, names a zipped database. */
  predicate IsZipUrl(url: string) {
    EndsWith(Lower(url), ".zip")
  }

  /** The three files `downloadDb` touches: the database, the temporary database and
      the temporary zip (`None` when the file does not exist). */
  datatype Disk = Disk(db: Option<seq<byte>>, temp: Option<seq<byte>>, tempZip: Option<seq<byte>>)

  /** The body of one attempt: deletes stale temporary files, downloads to the temporary
      zip or database file, unpacks a zip into the temporary database file, and checks
      the header; on success the temporary database file holds the database. */
  method Attempt(disk: Disk, isZip: bool, unzip: seq<byte> -> seq<ZipEntry>, f: Fetch)
    returns (outcome: Result<seq<byte>, string>, after: Disk)
    ensures outcome == AttemptOutcome(isZip, unzip, f)
    ensures outcome.Success? ==> after.temp == Some(outcome.value)
    ensures after.db == disk.db
  {
    after := disk.(temp := None, tempZip := None);
    if f.FetchFailed? {
      return Failure(f.error), after;
    }
    if isZip {
      after := after.(tempZip := Some(f.body));
      var file := UnzipDb(Some(unzip(f.body)));
      if file.Failure? {
        return file, after;
      }
      after := after.(temp := Some(file.value));
    } else {
      after := after.(temp := Some(f.body));
    }
    if !IsValidSqlite(after.temp) {
      return Failure("Downloaded DB is not valid"), after.(temp := None);
    }
    return Success(after.temp.value), after;
  }

  /** `downloadDb`: up to three attempts; the first that yields a valid database
      replaces the database file; every failed attempt deletes both temporary files
      and the database file, and is followed by a delay unless it was the last. Also
      returns how many requests were made and the delays slept, in milliseconds. */
  method DownloadDb(url: string, unzip: seq<byte> -> seq<ZipEntry>, fetches: seq<Fetch>, disk: Disk)
    returns (r: Result<(), string>, after: Disk, requests: nat, delays: seq<nat>)
    requires |fetches| >= Attempts
    ensures after.temp.None? && after.tempZip.None?
    ensures var first := FirstSuccess(IsZipUrl(url), unzip, fetches, Attempts);
            first.Some? ==>
              && r.Success?
              && after.db == Some(AttemptOutcome(IsZipUrl(url), unzip, fetches[first.value]).value)
              && requests == first.value + 1
              && delays == Backoff(first.value)
    ensures var first := FirstSuccess(IsZipUrl(url), unzip, fetches, Attempts);
            first.None? ==>
              && r == Failure(AttemptOutcome(IsZipUrl(url), unzip, fetches[Attempts - 1]).error)
              && after.db.None?
              && requests == Attempts
              && delays == Backoff(Attempts)
  {
    var isZip := IsZipUrl(url);
    var lastError: Option<string> := None;
    after := disk;
    requests, delays := 0, [];
    var attempt := 0;
    while attempt < Attempts
      invariant 0 <= attempt <= Attempts
      invariant FirstSuccess(isZip, unzip, fetches, attempt).None?
      invariant attempt > 0 ==> after == Disk(None, None, None)
      invariant requests == attempt
      invariant delays == Backoff(attempt)
      invariant attempt > 0 ==> lastError == Some(AttemptOutcome(isZip, unzip, fetches[attempt - 1]).error)
    {
      requests := requests + 1;
      var outcome;
      outcome, after := Attempt(after, isZip, unzip, fetches[attempt]);
      if outcome.Success? {
        after := Disk(after.temp, None, None);
        assert FirstSuccess(isZip, unzip, fetches, attempt + 1) == Some(attempt);
        FirstSuccessStays(isZip, unzip, fetches, attempt + 1, Attempts);
        return Success(()), after, requests, delays;
      }
      lastError := Some(outcome.error);
      after := Disk(None, None, None);
      assert Backoff(attempt + 1) == if attempt < Attempts - 1 then Backoff(attempt) + [1500 * (attempt + 1)] else Backoff(attempt);
      if attempt < Attempts - 1 {
        delays := delays + [1500 * (attempt + 1)];
      }
      attempt := attempt + 1;
    }
    r := Failure(if lastError.Some? then lastError.value else "Download failed");
  }

  // ------------------------------------------------------------ cache files

  /** What a save does to its file: delete it, or write the given value to it. */
  datatype Persist<T> = RemoveFile | WriteFile(content: T)

  /** `savePosterCache`: only the entries with a non-blank value are written; when none
      remain the file is removed. */
  function SavePosterCache(cache: map<string, string>): (p: Persist<map<string, string>>)
    ensures p.RemoveFile? <==> forall k :: k in cache ==> IsBlank(cache[k])
    ensures p.WriteFile? ==> forall k :: k in p.content <==> k in cache && !IsBlank(cache[k])
    ensures p.WriteFile? ==> forall k :: k in p.content ==> p.content[k] == cache[k]
  {
    var filtered := map k | k in cache && !IsBlank(cache[k]) :: cache[k];
    if filtered == map[] then
      assert forall k :: k in cache ==> IsBlank(cache[k]) by {
        forall k | k in cache ensures IsBlank(cache[k]) {
          assert k !in filtered;
        }
      }
      RemoveFile
    else WriteFile(filtered)
  }

  datatype AiCacheItem = AiCacheItem(title: string, link: string, posterLink: Option<string>, baseName: string)
  datatype AiCache = AiCache(timestamp: int, items: seq<AiCacheItem>)

  /** `saveAiCache`: a missing cache or one without items removes the file; anything
      else is written as it is. */
  function SaveAiCache(cache: Option<AiCache>): (p: Persist<AiCache>)
    ensures p.RemoveFile? <==> cache.None? || cache.value.items == []
    ensures p.WriteFile? ==> p.content == cache.value
  {
    if cache.None? || cache.value.items == [] then RemoveFile else WriteFile(cache.value)
  }

  // ------------------------------------------------------------ servers

  /** The URL `pingServer` sends its HEAD request to. */
  function PingUrl(server: string): (url: string)
    ensures StartsWith(url, "http")
    ensures StartsWith(server, "http") ==> url == server
    ensures !StartsWith(server, "http") ==> url == "http://" + server
  {
    if StartsWith(server, "http") then server
    else
      assert ("http://" + server)[..4] == "http";
      "http://" + server
  }

  lemma PingUrlIdempotent(server: string)
    ensures PingUrl(PingUrl(server)) == PingUrl(server)
  {
  }

  // ------------------------------------------------------------ OMDb posters

  /** An HTTP reply as `fetchOmdbPoster` sees it: `Unavailable` for a non-2xx code or a
      failed call, otherwise the parsed body (`None` when it is not JSON and the parser
      throws). */
  datatype Reply = Unavailable | Body(root: Option<Json>)

  /** A poster URL worth keeping: present, non-blank and not "N/A". */
  predicate Usable(p: Option<string>) {
    p.Some? && !IsBlank(p.value) && p.value != "N/A"
  }

  /** `(obj["Poster"] as? JsonPrimitive)?.content` of a search item, which counts only
      when it is an object. */
  function PosterOf(item: Json): Option<string> {
    if item.JObject? then FieldContent(Some(item), "Poster") else None
  }

  /** The first usable poster among the search items. */
  function FirstPoster(items: seq<Json>): (r: Option<string>)
    ensures r.Some? ==> exists k :: 0 <= k < |items| && PosterOf(items[k]) == r
                          && forall j :: 0 <= j < k ==> !Usable(PosterOf(items[j]))
    ensures r.Some? ==> Usable(r)
    ensures r.None? <==> forall k :: 0 <= k < |items| ==> !Usable(PosterOf(items[k]))
  {
    if items == [] then None
    else if Usable(PosterOf(items[0])) then PosterOf(items[0])
    else
      var rest := FirstPoster(items[1..]);
      assert forall j :: 1 <= j < |items| ==> items[j] == items[1..][j - 1];
      assert rest.Some? ==> exists k :: 0 <= k < |items| && PosterOf(items[k]) == rest
                              && forall j :: 0 <= j < k ==> !Usable(PosterOf(items[j])) by {
        if rest.Some? {
          var k :| 0 <= k < |items[1..]| && PosterOf(items[1..][k]) == rest
                   && forall j :: 0 <= j < k ==> !Usable(PosterOf(items[1..][j]));
          assert PosterOf(items[k + 1]) == rest;
        }
      }
      rest
  }

  /** The loop over `Search` in `fetchOmdbPoster`, with its early return. */
  method PickPoster(items: seq<Json>) returns (r: Option<string>)
    ensures r == FirstPoster(items)
  {
    var i := 0;
    while i < |items|
      invariant 0 <= i <= |items|
      invariant FirstPoster(items) == FirstPoster(items[i..])
    {
      assert items[i..][1..] == items[i + 1..];
      var poster := PosterOf(items[i]);
      if Usable(poster) {
        return poster;
      }
      i := i + 1;
    }
    return None;
  }

  /** `root["Response"]` reads "True" (a missing or non-primitive field reads "False"). */
  predicate ResponseOk(root: Json) {
    FieldContent(Some(root), "Response").GetOr("False") == "True"
  }

  /** The by-title lookup (`&t=`), made only when the search found nothing usable. */
  function ExactPoster(exact: Reply): (r: Option<string>)
    ensures r.Some? ==> Usable(r)
  {
    if exact.Unavailable? || exact.root.None? then None
    else
      var root := exact.root.value;
      if !root.JObject? || !ResponseOk(root) then None
      else
        var poster := FieldContent(Some(root), "Poster");
        if Usable(poster) then poster else None
  }

  /** The search reply leads to the by-title request: it is an object answering "True"
      with a `Search` array in which no poster is usable. */
  predicate AsksExact(search: Reply) {
    && search.Body? && search.root.Some?
    && search.root.value.JObject? && ResponseOk(search.root.value)
    && Field(search.root.value, "Search").Some?
    && Field(search.root.value, "Search").value.JArray?
    && FirstPoster(Field(search.root.value, "Search").value.items).None?
  }

  /** `fetchOmdbPoster`: the first usable poster of the search reply, else the poster
      of the by-title reply. */
  function OmdbPoster(title: string, apiKey: string, search: Reply, exact: Reply): (r: Option<string>)
    ensures r.Some? ==> Usable(r)
    ensures IsBlank(title) || IsBlank(apiKey) ==> r.None?
  {
    if IsBlank(title) || IsBlank(apiKey) then None
    else if search.Unavailable? || search.root.None? then None
    else
      var root := search.root.value;
      if !root.JObject? || !ResponseOk(root) then None
      else
        var list := Field(root, "Search");
        if list.None? || !list.value.JArray? then None
        else
          var found := FirstPoster(list.value.items);
          if found.Some? then found else ExactPoster(exact)
  }

  /** The by-title reply matters only when the search reply asks for it. */
  lemma OmdbExactOnlyWhenAsked(title: string, apiKey: string, search: Reply, exact1: Reply, exact2: Reply)
    requires !AsksExact(search)
    ensures OmdbPoster(title, apiKey, search, exact1) == OmdbPoster(title, apiKey, search, exact2)
  {
  }

  /** When it is asked for, the by-title reply decides the result. */
  lemma OmdbExactWhenAsked(title: string, apiKey: string, search: Reply, exact: Reply)
    requires !IsBlank(title) && !IsBlank(apiKey) && AsksExact(search)
    ensures OmdbPoster(title, apiKey, search, exact) == ExactPoster(exact)
  {
  }
}
