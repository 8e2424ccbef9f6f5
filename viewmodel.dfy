/** `MovieMaxViewModel`: the screen state, the history index it updates in place, the
    search and server checks, and the throttled download-progress reporter. The clock
    (`System.currentTimeMillis() / 1000`) is the parameter `now`; pings, the database
    rows and whether an external player opened are inputs. */
module ViewModel {
  import opened Common
  import opened Catalog
  import opened History

  const NoYear: string := "No Year"

  /** `SERVER_LIST`, in order. */
  const ServerList: seq<string> := [
    "45.250.20.254",
    "172.16.50.7",
    "10.16.100.213",
    "10.100.100.12",
    "10.16.100.202",
    "10.16.100.212",
    "10.16.100.206",
    "103.153.175.254/NAS1",
    "server1.dhakamovie.com/",
    "data.kenecolor.com/data/"
  ]

  datatype MainTab = ResultsTab | HistoryTab

  datatype ResultItem = ResultItem(title: string, link: string)

  /** The `player…` fields of the screen state, present while the player is open. */
  datatype Player = Player(link: string, title: string, startMs: int, tracks: Tracks)

  /** `UiState`, without the two version strings. */
  datatype UiState = UiState(
    query: string,
    selectedYear: string,
    serverStatus: string,
    canSearch: bool,
    actionStatus: string,
    availableServers: set<string>,
    results: seq<ResultItem>,
    history: seq<HistoryItem>,
    selectedTab: MainTab,
    dbReady: bool,
    player: Option<Player>)

  const InitialUi: UiState :=
    UiState("", NoYear, "Connecting to servers...", false, "", {}, [], [], HistoryTab, false, None)

  // ------------------------------------------------------------ upserts

  function Lookup(index: map<string, HistoryEntry>, link: string): (r: Option<HistoryEntry>)
    ensures r.Some? <==> link in index
    ensures r.Some? ==> r.value == index[link]
  {
    if link in index then Some(index[link]) else None
  }

  /** The entry `saveHistoryPlayback` files: the old one renamed when the title is not
      blank and stamped with `now`, or a fresh one carrying the title as given. */
  function Played(index: map<string, HistoryEntry>, link: string, title: string, now: int): (e: HistoryEntry)
    ensures e.lastPlayedTs == now
    ensures link in index ==> e == index[link].(name := IfBlank(title, index[link].name), lastPlayedTs := now)
    ensures link !in index ==> e == NewEntry(link, title, now)
  {
    if link in index then index[link].(name := IfBlank(title, index[link].name), lastPlayedTs := now)
    else NewEntry(link, title, now)
  }

  /** The entry `updateHistoryProgress` files: whole seconds of position and duration,
      never negative, the name replaced only by a non-blank title, and everything else
      as before (a new entry is named after the link when the title is blank). */
  function Progressed(index: map<string, HistoryEntry>, link: string, title: string,
                      positionMs: int, durationMs: int, now: int): (e: HistoryEntry)
    ensures e.position == Max(0, TDiv(positionMs, 1000)) && e.position >= 0
    ensures e.duration == Max(0, TDiv(durationMs, 1000)) && e.duration >= 0
    ensures e.lastPlayedTs == now
    ensures e.name == IfBlank(title, if link in index then index[link].name else link)
    ensures link in index ==> e.link == index[link].link && e.tracks == index[link].tracks
                              && e.baseName == index[link].baseName && e.posterLink == index[link].posterLink
                              && e.localPosterPath == index[link].localPosterPath
    ensures link !in index ==> e.link == link && e.tracks == NoTracks
  {
    var entry := if link in index then index[link] else NewEntry(link, IfBlank(title, link), now);
    entry.(name := IfBlank(title, entry.name),
           position := Max(0, TDiv(positionMs, 1000)),
           duration := Max(0, TDiv(durationMs, 1000)),
           lastPlayedTs := now)
  }

  /** The entry `updateTrackSelection` files: all ten track fields overwritten, nulls
      included, position and duration kept (zero for a new entry). */
  function Tracked(index: map<string, HistoryEntry>, link: string, title: string, tracks: Tracks, now: int): (e: HistoryEntry)
    ensures e.tracks == tracks && e.lastPlayedTs == now
    ensures e.name == IfBlank(title, if link in index then index[link].name else link)
    ensures link in index ==> e.link == index[link].link && e.position == index[link].position
                              && e.duration == index[link].duration && e.baseName == index[link].baseName
                              && e.posterLink == index[link].posterLink
                              && e.localPosterPath == index[link].localPosterPath
    ensures link !in index ==> e.link == link && e.position == 0 && e.duration == 0
  {
    var entry := if link in index then index[link] else NewEntry(link, IfBlank(title, link), now);
    entry.(name := IfBlank(title, entry.name), lastPlayedTs := now, tracks := tracks)
  }

  /** Where the player starts: the saved position, in milliseconds, only when the link
      was already in the history with a known duration and a positive position; the
      `Long` product wraps at 64 bits. */
  function ResumeMs(entry: Option<HistoryEntry>): (ms: int)
    ensures !(entry.Some? && entry.value.duration > 0 && entry.value.position > 0) ==> ms == 0
    ensures entry.Some? && entry.value.duration > 0 && entry.value.position > 0 ==>
              ms == ToInt64(entry.value.position * 1000)
    ensures entry.Some? && entry.value.duration > 0 && 0 < entry.value.position * 1000 < 0x8000_0000_0000_0000 ==>
              ms == entry.value.position * 1000 && ms > 0
  {
    if entry.Some? && entry.value.duration > 0 && entry.value.position > 0 then ToInt64(entry.value.position * 1000) else 0
  }

  /** The player `openInternal` opens: the title falls back to the link, and the track
      fields come from the entry that existed beforehand (or the defaults). */
  function Launch(index: map<string, HistoryEntry>, link: string, title: string): (p: Player)
    ensures p.link == link && p.title == IfBlank(title, link)
    ensures p.startMs == ResumeMs(Lookup(index, link))
    ensures p.tracks == if link in index then index[link].tracks else NoTracks
  {
    Player(link, IfBlank(title, link), ResumeMs(Lookup(index, link)), if link in index then index[link].tracks else NoTracks)
  }

  // ------------------------------------------------------------ search

  datatype SearchPlan = Refuse(status: string) | Run(query: string, year: Option<string>)

  /** The guard chain of `startSearch`: servers first, then the database, then a query
      of at least two characters after trimming; the year filter is dropped exactly when
      "No Year" is selected. */
  function PlanSearch(ui: UiState): (p: SearchPlan)
    ensures !ui.canSearch ==> p == Refuse("Connect at least one server to search.")
    ensures ui.canSearch && !ui.dbReady ==> p == Refuse("Database is not ready yet.")
    ensures ui.canSearch && ui.dbReady && |Trim(ui.query)| < 2 ==> p == Refuse("Type at least 2 characters to search.")
    ensures p.Run? <==> ui.canSearch && ui.dbReady && |Trim(ui.query)| >= 2
    ensures p.Run? ==> p.query == Trim(ui.query)
                       && (p.year.None? <==> ui.selectedYear == NoYear)
                       && (p.year.Some? ==> p.year.value == ui.selectedYear)
  {
    if !ui.canSearch then Refuse("Connect at least one server to search.")
    else if !ui.dbReady then Refuse("Database is not ready yet.")
    else if |Trim(ui.query)| < 2 then Refuse("Type at least 2 characters to search.")
    else Run(Trim(ui.query), if ui.selectedYear != NoYear then Some(ui.selectedYear) else None)
  }

  function ResultItems(results: seq<MovieResult>): (r: seq<ResultItem>)
    ensures |r| == |results|
    ensures forall i :: 0 <= i < |r| ==> r[i] == ResultItem(results[i].title, results[i].link)
  {
    seq(|results|, i requires 0 <= i < |results| => ResultItem(results[i].title, results[i].link))
  }

  function SearchStatus(count: nat): string {
    if count == 0 then "No results found." else "Found " + IntToString(count) + " results."
  }

  // ------------------------------------------------------------ servers

  /** The servers whose ping succeeded, in list order. */
  function Reachable(servers: seq<string>, pings: seq<bool>): (r: seq<string>)
    requires |pings| == |servers|
    ensures |r| <= |servers|
    ensures forall i :: 0 <= i < |servers| && pings[i] ==> servers[i] in r
    ensures forall x :: x in r ==> exists i :: 0 <= i < |servers| && pings[i] && servers[i] == x
    decreases |servers|
  {
    if servers == [] then []
    else
      var n := |servers| - 1;
      Reachable(servers[..n], pings[..n]) + (if pings[n] then [servers[n]] else [])
  }

  function ServerStatus(count: nat): string {
    "Connected Servers: " + IntToString(count) + "/" + IntToString(|ServerList|)
  }

  // ----------------------------------------------------------- the model

  class MovieMaxViewModel {
    var ui: UiState
    var availableServers: seq<string>
    /** `historyIndex` with the insertion order of its keys. */
    var historyIndex: map<string, HistoryEntry>
    var order: seq<string>
    /** The history file: the list `saveHistory` last wrote. */
    var savedHistory: seq<HistoryEntry>
    /** `historySaveJob`: the list the debounced save will write, while one is pending. */
    var pendingSave: Option<seq<HistoryEntry>>

    predicate Valid()
      reads this
    {
      IndexOk(historyIndex, order)
    }

    /** The published list: the index's values by recency, at most 100. */
    function Published(): seq<HistoryEntry>
      reads this
      requires Valid()
    {
      Recent(Values(historyIndex, order))
    }

    /** `init`'s `loadHistory`: the saved list keyed by link, its items rendered as read. */
    constructor (saved: seq<HistoryEntry>, now: int)
      ensures Valid()
      ensures historyIndex == Load(saved).0 && order == Load(saved).1
      ensures ui == InitialUi.(history := RenderHistory(saved, now))
      ensures savedHistory == saved && pendingSave.None? && availableServers == []
    {
      var index: map<string, HistoryEntry> := map[];
      var keys: seq<string> := [];
      var i := 0;
      while i < |saved|
        invariant 0 <= i <= |saved|
        invariant (index, keys) == Load(saved[..i])
      {
        var e := saved[i];
        LoadNext(saved, i);
        keys := PutOrder(index, keys, e.link);
        index := index[e.link := e];
        i := i + 1;
      }
      assert saved[..|saved|] == saved;
      LoadSpec(saved);
      historyIndex := index;
      order := keys;
      savedHistory := saved;
      pendingSave := None;
      availableServers := [];
      ui := InitialUi.(history := RenderHistory(saved, now));
    }

    /** Files `e` under its link, keeping its place in the order when it is not new. */
    method Put(e: HistoryEntry)
      requires Valid()
      modifies this
      ensures Valid()
      ensures historyIndex == old(historyIndex)[e.link := e]
      ensures order == PutOrder(old(historyIndex), old(order), e.link)
      ensures ui == old(ui) && availableServers == old(availableServers)
      ensures savedHistory == old(savedHistory) && pendingSave == old(pendingSave)
    {
      PutValues(historyIndex, order, e);
      order := PutOrder(historyIndex, order, e.link);
      historyIndex := historyIndex[e.link := e];
    }

    /** Takes `link` out of the index and out of the key order. */
    method Remove(link: string)
      requires Valid()
      modifies this
      ensures Valid()
      ensures historyIndex == old(historyIndex) - {link}
      ensures order == Drop(old(order), link)
      ensures ui == old(ui) && availableServers == old(availableServers)
      ensures savedHistory == old(savedHistory) && pendingSave == old(pendingSave)
    {
      RemoveKeepsIndex(historyIndex, order, link);
      historyIndex := historyIndex - {link};
      order := Drop(order, link);
    }

    /** `saveHistoryPlayback`: upserts the entry for `link`, then writes and shows the
        published list. */
    method SaveHistoryPlayback(link: string, title: string, now: int)
      requires Valid()
      modifies this
      ensures Valid()
      ensures historyIndex == old(historyIndex)[link := Played(old(historyIndex), link, title, now)]
      ensures order == PutOrder(old(historyIndex), old(order), link)
      ensures savedHistory == Published()
      ensures ui == old(ui).(history := RenderHistory(Published(), now))
      ensures availableServers == old(availableServers) && pendingSave == old(pendingSave)
    {
      var e := Played(historyIndex, link, title, now);
      Put(e);
      var history := Recent(Values(historyIndex, order));
      savedHistory := history;
      ui := ui.(history := RenderHistory(history, now));
    }

    /** `updateHistoryProgress`: nothing for a blank link; otherwise only the entry for
        `link` changes, the published list is shown and a debounced save of it replaces
        any pending one. */
    method UpdateHistoryProgress(link: string, title: string, positionMs: int, durationMs: int, now: int)
      requires Valid()
      modifies this
      ensures Valid()
      ensures IsBlank(link) ==> unchanged(this)
      ensures !IsBlank(link) ==>
                && historyIndex == old(historyIndex)[link := Progressed(old(historyIndex), link, title, positionMs, durationMs, now)]
                && order == PutOrder(old(historyIndex), old(order), link)
                && ui == old(ui).(history := RenderHistory(Published(), now))
                && pendingSave == Some(Published())
                && savedHistory == old(savedHistory) && availableServers == old(availableServers)
    {
      if IsBlank(link) {
        return;
      }
      var e := Progressed(historyIndex, link, title, positionMs, durationMs, now);
      Put(e);
      var history := Recent(Values(historyIndex, order));
      ui := ui.(history := RenderHistory(history, now));
      pendingSave := Some(history);
    }

    /** `updateTrackSelection`: as `updateHistoryProgress`, with the track fields. */
    method UpdateTrackSelection(link: string, title: string, tracks: Tracks, now: int)
      requires Valid()
      modifies this
      ensures Valid()
      ensures IsBlank(link) ==> unchanged(this)
      ensures !IsBlank(link) ==>
                && historyIndex == old(historyIndex)[link := Tracked(old(historyIndex), link, title, tracks, now)]
                && order == PutOrder(old(historyIndex), old(order), link)
                && ui == old(ui).(history := RenderHistory(Published(), now))
                && pendingSave == Some(Published())
                && savedHistory == old(savedHistory) && availableServers == old(availableServers)
    {
      if IsBlank(link) {
        return;
      }
      var e := Tracked(historyIndex, link, title, tracks, now);
      Put(e);
      var history := Recent(Values(historyIndex, order));
      ui := ui.(history := RenderHistory(history, now));
      pendingSave := Some(history);
    }

    /** The debounced save firing: the pending list is written. */
    method FlushSave()
      modifies this
      ensures pendingSave.None?
      ensures savedHistory == if old(pendingSave).Some? then old(pendingSave).value else old(savedHistory)
      ensures ui == old(ui) && historyIndex == old(historyIndex) && order == old(order)
      ensures availableServers == old(availableServers)
    {
      if pendingSave.Some? {
        savedHistory := pendingSave.value;
      }
      pendingSave := None;
    }

    /** `clearHistory` as written: the index, the file and the list are emptied, but a
        pending debounced save is left to run. */
    method ClearHistoryAsWritten()
      modifies this
      ensures Valid()
      ensures historyIndex == map[] && order == [] && savedHistory == []
      ensures ui == old(ui).(history := [], actionStatus := "History cleared.")
      ensures pendingSave == old(pendingSave) && availableServers == old(availableServers)
    {
      historyIndex := map[];
      order := [];
      savedHistory := [];
      ui := ui.(history := [], actionStatus := "History cleared.");
    }

    /** `clearHistory`, cancelling the pending debounced save as well. */
    method ClearHistory()
      modifies this
      ensures Valid()
      ensures historyIndex == map[] && order == [] && savedHistory == [] && pendingSave.None?
      ensures ui == old(ui).(history := [], actionStatus := "History cleared.")
      ensures availableServers == old(availableServers)
    {
      historyIndex := map[];
      order := [];
      savedHistory := [];
      pendingSave := None;
      ui := ui.(history := [], actionStatus := "History cleared.");
    }

    /** `removeHistoryItem` as written: nothing for a blank link; otherwise exactly that
        key goes, the rest keep their order, and the published list is written and shown,
        while a pending debounced save is left to run. */
    method RemoveHistoryItemAsWritten(link: string, now: int)
      requires Valid()
      modifies this
      ensures Valid()
      ensures IsBlank(link) ==> unchanged(this)
      ensures !IsBlank(link) ==>
                && historyIndex == old(historyIndex) - {link}
                && order == Drop(old(order), link)
                && savedHistory == Published()
                && ui == old(ui).(history := RenderHistory(Published(), now), actionStatus := "History item removed.")
                && pendingSave == old(pendingSave) && availableServers == old(availableServers)
    {
      if IsBlank(link) {
        return;
      }
      Remove(link);
      var history := Recent(Values(historyIndex, order));
      savedHistory := history;
      ui := ui.(history := RenderHistory(history, now), actionStatus := "History item removed.");
    }

    /** `removeHistoryItem`, cancelling the pending debounced save as well. */
    method RemoveHistoryItem(link: string, now: int)
      requires Valid()
      modifies this
      ensures Valid()
      ensures IsBlank(link) ==> unchanged(this)
      ensures !IsBlank(link) ==>
                && historyIndex == old(historyIndex) - {link}
                && order == Drop(old(order), link)
                && savedHistory == Published() && pendingSave.None?
                && ui == old(ui).(history := RenderHistory(Published(), now), actionStatus := "History item removed.")
                && availableServers == old(availableServers)
    {
      if IsBlank(link) {
        return;
      }
      RemoveHistoryItemAsWritten(link, now);
      pendingSave := None;
    }

    /** `openInternal`: nothing for a blank link; otherwise the playback is recorded
        and the player opens at the resume position of the entry that existed before. */
    method OpenInternal(link: string, title: string, now: int)
      requires Valid()
      modifies this
      ensures Valid()
      ensures IsBlank(link) ==> unchanged(this)
      ensures !IsBlank(link) ==>
                && historyIndex == old(historyIndex)[link := Played(old(historyIndex), link, IfBlank(title, link), now)]
                && order == PutOrder(old(historyIndex), old(order), link)
                && savedHistory == Published()
                && ui == old(ui).(history := RenderHistory(Published(), now),
                                  player := Some(Launch(old(historyIndex), link, title)))
                && availableServers == old(availableServers) && pendingSave == old(pendingSave)
    {
      if IsBlank(link) {
        return;
      }
      var player := Launch(historyIndex, link, title);
      SaveHistoryPlayback(link, IfBlank(title, link), now);
      ui := ui.(player := Some(player));
    }

    /** `openResult` and `openHistory` both hand over to `openInternal`. */
    method OpenResult(link: string, title: string, now: int)
      requires Valid()
      modifies this
      ensures Valid()
      ensures IsBlank(link) ==> unchanged(this)
      ensures !IsBlank(link) ==>
                && historyIndex == old(historyIndex)[link := Played(old(historyIndex), link, IfBlank(title, link), now)]
                && order == PutOrder(old(historyIndex), old(order), link)
                && savedHistory == Published()
                && ui == old(ui).(history := RenderHistory(Published(), now),
                                  player := Some(Launch(old(historyIndex), link, title)))
                && availableServers == old(availableServers) && pendingSave == old(pendingSave)
    {
      if IsBlank(link) {
        return;
      }
      OpenInternal(link, title, now);
    }

    /** `closePlayer`. */
    method ClosePlayer()
      modifies this
      ensures ui == old(ui).(player := None)
      ensures historyIndex == old(historyIndex) && order == old(order) && availableServers == old(availableServers)
      ensures savedHistory == old(savedHistory) && pendingSave == old(pendingSave)
    {
      ui := ui.(player := None);
    }

    /** `openExternal`, given whether the external player could be started: the playback
        is recorded only when it was. */
    method OpenExternal(link: string, title: string, started: bool, now: int)
      requires Valid()
      modifies this
      ensures Valid()
      ensures IsBlank(link) ==> unchanged(this)
      ensures !IsBlank(link) && !started ==>
                && ui == old(ui).(actionStatus := "Unable to open external player.")
                && historyIndex == old(historyIndex) && order == old(order) && savedHistory == old(savedHistory)
      ensures !IsBlank(link) && started ==>
                && historyIndex == old(historyIndex)[link := Played(old(historyIndex), link, IfBlank(title, link), now)]
                && order == PutOrder(old(historyIndex), old(order), link)
                && savedHistory == Published()
                && ui == old(ui).(history := RenderHistory(Published(), now), actionStatus := "Opened in external player.")
      ensures availableServers == old(availableServers) && pendingSave == old(pendingSave)
    {
      if IsBlank(link) {
        return;
      }
      if started {
        SaveHistoryPlayback(link, IfBlank(title, link), now);
        ui := ui.(actionStatus := "Opened in external player.");
      } else {
        ui := ui.(actionStatus := "Unable to open external player.");
      }
    }

    /** `startSearch` against the catalog `db`, run to completion. */
    method StartSearch(db: Option<seq<Row>>)
      modifies this
      ensures var plan := PlanSearch(old(ui));
              && (plan.Refuse? ==> ui == old(ui).(actionStatus := plan.status))
              && (plan.Run? ==>
                    var items := ResultItems(MatchSpec(old(availableServers), plan.query, plan.year, db));
                    ui == old(ui).(selectedTab := ResultsTab, results := items, actionStatus := SearchStatus(|items|)))
      ensures historyIndex == old(historyIndex) && order == old(order) && availableServers == old(availableServers)
      ensures savedHistory == old(savedHistory) && pendingSave == old(pendingSave)
    {
      var plan := PlanSearch(ui);
      if plan.Refuse? {
        ui := ui.(actionStatus := plan.status);
        return;
      }
      ui := ui.(actionStatus := "Searching...", selectedTab := ResultsTab);
      var results := MatchMovies(availableServers, plan.query, plan.year, db);
      var items := ResultItems(results);
      ui := ui.(results := items, actionStatus := SearchStatus(|items|));
    }

    /** `checkServers`, given the outcome of each ping in list order: the reachable
        servers become the available ones, and searching is allowed when there is one. */
    method CheckServers(pings: seq<bool>)
      requires |pings| == |ServerList|
      modifies this
      ensures availableServers == Reachable(ServerList, pings)
      ensures ui == old(ui).(canSearch := availableServers != [],
                             serverStatus := ServerStatus(|availableServers|),
                             availableServers := set x | x in availableServers)
      ensures historyIndex == old(historyIndex) && order == old(order)
      ensures savedHistory == old(savedHistory) && pendingSave == old(pendingSave)
    {
      var available := PingAll(ServerList, pings);
      availableServers := available;
      ui := ui.(canSearch := available != [], serverStatus := ServerStatus(|available|),
                availableServers := set x | x in available);
    }
  }

  /** The loop of `checkServers`: each server whose ping succeeds is appended. */
  method PingAll(servers: seq<string>, pings: seq<bool>) returns (available: seq<string>)
    requires |pings| == |servers|
    ensures available == Reachable(servers, pings)
  {
    available := [];
    var i := 0;
    while i < |servers|
      invariant 0 <= i <= |servers|
      invariant available == Reachable(servers[..i], pings[..i])
    {
      assert servers[..i + 1][..i] == servers[..i];
      assert pings[..i + 1][..i] == pings[..i];
      if pings[i] {
        available := available + [servers[i]];
      }
      i := i + 1;
    }
    assert servers[..i] == servers && pings[..i] == pings;
  }

  // ------------------------------------------------- the debounced save

  /** A progress update of any link, followed within the debounce delay by
      `clearHistory`, as written: when the pending save fires, the cleared entry is back
      in the file. */
  method ClearedHistoryComesBack(link: string, title: string, positionMs: int, durationMs: int, now: int)
    returns (saved: seq<HistoryEntry>)
    requires !IsBlank(link)
    ensures saved == [Progressed(map[], link, title, positionMs, durationMs, now)]
  {
    var vm := new MovieMaxViewModel([], now);
    vm.UpdateHistoryProgress(link, title, positionMs, durationMs, now);
    OneEntryPublished(vm.historyIndex, vm.order, Progressed(map[], link, title, positionMs, durationMs, now));
    vm.ClearHistoryAsWritten();
    vm.FlushSave();
    saved := vm.savedHistory;
  }

  /** The same sequence with `clearHistory` cancelling the pending save: the file stays
      empty. */
  method ClearedHistoryStaysCleared(link: string, title: string, positionMs: int, durationMs: int, now: int)
    returns (saved: seq<HistoryEntry>)
    requires !IsBlank(link)
    ensures saved == []
  {
    var vm := new MovieMaxViewModel([], now);
    vm.UpdateHistoryProgress(link, title, positionMs, durationMs, now);
    vm.ClearHistory();
    vm.FlushSave();
    saved := vm.savedHistory;
  }

  /** A progress update of any link, followed within the debounce delay by
      `removeHistoryItem` of the same link, as written: the removed entry is written
      back. */
  method RemovedItemComesBack(link: string, title: string, positionMs: int, durationMs: int, now: int)
    returns (saved: seq<HistoryEntry>)
    requires !IsBlank(link)
    ensures saved == [Progressed(map[], link, title, positionMs, durationMs, now)]
  {
    var vm := new MovieMaxViewModel([], now);
    vm.UpdateHistoryProgress(link, title, positionMs, durationMs, now);
    OneEntryPublished(vm.historyIndex, vm.order, Progressed(map[], link, title, positionMs, durationMs, now));
    vm.RemoveHistoryItemAsWritten(link, now);
    vm.FlushSave();
    saved := vm.savedHistory;
  }

  /** With the pending save cancelled, the removal sticks. */
  method RemovedItemStaysRemoved(link: string, title: string, positionMs: int, durationMs: int, now: int)
    returns (saved: seq<HistoryEntry>)
    requires !IsBlank(link)
    ensures saved == []
  {
    var vm := new MovieMaxViewModel([], now);
    vm.UpdateHistoryProgress(link, title, positionMs, durationMs, now);
    assert vm.order == [link];
    vm.RemoveHistoryItem(link, now);
    assert vm.order == [];
    vm.FlushSave();
    saved := vm.savedHistory;
  }

  // ------------------------------------------------------- download progress

  /** Kotlin `Long` arithmetic: the low 64 bits as a two's-complement value. */
  function ToInt64(x: int): (r: int)
    ensures -0x8000_0000_0000_0000 <= r < 0x8000_0000_0000_0000
    ensures -0x8000_0000_0000_0000 <= x < 0x8000_0000_0000_0000 ==> r == x
  {
    var m := x % 0x1_0000_0000_0000_0000;
    if m < 0x8000_0000_0000_0000 then m else m - 0x1_0000_0000_0000_0000
  }

  /** `((bytes * 100) / total).toInt().coerceIn(0, 100)` on `Long`s. */
  function PercentDone(bytes: int, total: int): (pct: int)
    requires total > 0
    ensures 0 <= pct <= 100
  {
    var p := ToInt32(TDiv(ToInt64(bytes * 100), total));
    if p < 0 then 0 else if p > 100 then 100 else p
  }

  lemma MulMonotone(a: int, b: int, c: int)
    requires a <= b && c >= 0
    ensures a * c <= b * c
  {
  }

  lemma QuotientBound(p: int, total: int)
    requires 0 <= p <= total * 100 && total > 0
    ensures 0 <= p / total <= 100
    ensures p / total == 100 <==> p == total * 100
  {
    var q := p / total;
    assert p == q * total + p % total && 0 <= p % total < total;
    if q > 100 {
      MulMonotone(101, q, total);
    }
    if q <= 99 {
      MulMonotone(q, 99, total);
    }
  }

  /** For a download in progress of a realistic size the percentage is the whole
      number of hundredths received, and it is 100 exactly when everything arrived. */
  lemma PercentOfDownload(bytes: int, total: int)
    requires 0 <= bytes <= total && 0 < total < 0x1_0000_0000_0000
    ensures PercentDone(bytes, total) == bytes * 100 / total
    ensures PercentDone(bytes, total) == 100 <==> bytes == total
  {
    var p := bytes * 100;
    assert 0 <= p <= total * 100 < 0x8000_0000_0000_0000;
    assert ToInt64(p) == p;
    QuotientBound(p, total);
    assert TDiv(p, total) == p / total;
    assert ToInt32(p / total) == p / total;
  }

  datatype Progress = Percent(pct: int) | Received(bytes: int)

  /** The status text of a percentage report; the size report's "%.1fMB" is not
      modelled. */
  function ProgressText(prefix: string, pct: int): string {
    prefix + " " + IntToString(pct) + "%"
  }

  /** The callback `createProgressUpdater` returns, with its two captured variables. */
  class ProgressUpdater {
    const prefix: string
    var lastPct: int
    var lastTime: int

    constructor (prefix: string)
      ensures this.prefix == prefix && lastPct == -1 && lastTime == 0
    {
      this.prefix := prefix;
      lastPct := -1;
      lastTime := 0;
    }

    /** One callback at time `now` (milliseconds): with a known total, a percentage is
        reported unless it repeats the last one within 300 ms; without one, the byte
        count is reported at most every 300 ms. */
    method Invoke(bytes: int, total: int, now: int) returns (shown: Option<Progress>)
      modifies this
      ensures total > 0 ==>
                var pct := PercentDone(bytes, total);
                if pct == old(lastPct) && now - old(lastTime) < 300 then shown.None? && unchanged(this)
                else shown == Some(Percent(pct)) && lastPct == pct && lastTime == now
      ensures total <= 0 ==>
                if now - old(lastTime) < 300 then shown.None? && unchanged(this)
                else shown == Some(Received(bytes)) && lastPct == old(lastPct) && lastTime == now
    {
      if total > 0 {
        var pct := PercentDone(bytes, total);
        if pct == lastPct && now - lastTime < 300 {
          return None;
        }
        lastPct := pct;
        lastTime := now;
        return Some(Percent(pct));
      } else {
        if now - lastTime < 300 {
          return None;
        }
        lastTime := now;
        return Some(Received(bytes));
      }
    }
  }
}
