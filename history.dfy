/** The playback history: the `HistoryEntry` record, the insertion-ordered index the
    view model keeps them in (a Kotlin `LinkedHashMap` from link to entry), the recency
    view that is published and saved, and the text each entry is rendered with. */
module History {
  import opened Common
  import opened Sorting

  // ---------------------------------------------------------------- entries

  /** The ten audio/subtitle fields of an entry, grouped. */
  datatype Tracks = Tracks(
    audioLabel: Option<string>,
    audioLanguage: Option<string>,
    audioGroupIndex: Option<int>,
    audioTrackIndex: Option<int>,
    subtitleLabel: Option<string>,
    subtitleLanguage: Option<string>,
    subtitleGroupIndex: Option<int>,
    subtitleTrackIndex: Option<int>,
    subtitleEnabled: bool,
    subtitleUri: Option<string>)

  /** The defaults of the data class: every track field null, subtitles off. */
  const NoTracks: Tracks := Tracks(None, None, None, None, None, None, None, None, false, None)

  /** Position, duration and timestamp are in seconds. */
  datatype HistoryEntry = HistoryEntry(
    link: string,
    name: string,
    position: int,
    duration: int,
    lastPlayedTs: int,
    baseName: Option<string>,
    posterLink: Option<string>,
    localPosterPath: Option<string>,
    tracks: Tracks)

  /** `HistoryEntry(link, name, position = 0, duration = 0, lastPlayedTs = now)`. */
  function NewEntry(link: string, name: string, now: int): HistoryEntry {
    HistoryEntry(link, name, 0, 0, now, None, None, None, NoTracks)
  }

  function PlayedAt(e: HistoryEntry): int { e.lastPlayedTs }

  // ------------------------------------------------------------------ index

  predicate Distinct(s: seq<string>) {
    forall i, j :: 0 <= i < j < |s| ==> s[i] != s[j]
  }

  /** A well-formed index: `order` lists every key exactly once, in insertion order,
      and every entry is filed under its own link (`associateBy { it.link }`). */
  predicate IndexOk(index: map<string, HistoryEntry>, order: seq<string>) {
    && (forall k :: k in index ==> k in order)
    && (forall k :: k in order ==> k in index)
    && Distinct(order)
    && (forall k :: k in index ==> index[k].link == k)
  }

  /** `index.values` in iteration order. */
  function Values(index: map<string, HistoryEntry>, order: seq<string>): (r: seq<HistoryEntry>)
    requires forall i :: 0 <= i < |order| ==> order[i] in index
    ensures |r| == |order|
    ensures forall i :: 0 <= i < |order| ==> r[i] == index[order[i]]
  {
    seq(|order|, i requires 0 <= i < |order| => index[order[i]])
  }

  /** The key order after `index[link] = …`: a new key goes last, an old one stays put. */
  function PutOrder(index: map<string, HistoryEntry>, order: seq<string>, link: string): seq<string> {
    if link in index then order else order + [link]
  }

  /** `put` keeps the index well formed; the values keep their places, the entry for
      the link is replaced where it stood, or appended when the link is new. */
  lemma PutValues(index: map<string, HistoryEntry>, order: seq<string>, e: HistoryEntry)
    requires IndexOk(index, order)
    ensures IndexOk(index[e.link := e], PutOrder(index, order, e.link))
    ensures var v := Values(index, order);
            var w := Values(index[e.link := e], PutOrder(index, order, e.link));
            && |w| == |v| + (if e.link in index then 0 else 1)
            && (forall i :: 0 <= i < |v| ==> w[i] == if v[i].link == e.link then e else v[i])
            && (e.link !in index ==> w[|v|] == e)
  {
    var order' := PutOrder(index, order, e.link);
    assert forall i :: 0 <= i < |order| ==> order'[i] == order[i];
  }

  /** The key order after `index.remove(link)`. */
  function Drop(order: seq<string>, link: string): (r: seq<string>)
    ensures forall k :: k in r <==> k in order && k != link
    ensures Distinct(order) ==> Distinct(r)
  {
    if order == [] then []
    else if order[0] == link then Drop(order[1..], link)
    else
      var rest := Drop(order[1..], link);
      assert Distinct(order) ==> order[0] !in order[1..];
      [order[0]] + rest
  }

  lemma RemoveKeepsIndex(index: map<string, HistoryEntry>, order: seq<string>, link: string)
    requires IndexOk(index, order)
    ensures IndexOk(index - {link}, Drop(order, link))
  {
  }

  /** `history.associateBy { it.link }` into a `LinkedHashMap`: entries are put one after
      another, so a link keeps the place of its first entry and the value of its last. */
  function Load(entries: seq<HistoryEntry>): (r: (map<string, HistoryEntry>, seq<string>))
    decreases |entries|
  {
    if entries == [] then (map[], [])
    else
      var p := Load(entries[..|entries| - 1]);
      var e := entries[|entries| - 1];
      (p.0[e.link := e], PutOrder(p.0, p.1, e.link))
  }

  /** Loading one more entry is one more `put`. */
  lemma LoadNext(entries: seq<HistoryEntry>, i: nat)
    requires i < |entries|
    ensures var p, e := Load(entries[..i]), entries[i];
            Load(entries[..i + 1]) == (p.0[e.link := e], PutOrder(p.0, p.1, e.link))
  {
    assert entries[..i + 1][..i] == entries[..i];
  }

  /** Loading gives a well-formed index holding every link, under which the last entry
      with that link is filed. */
  lemma {:induction false} LoadSpec(entries: seq<HistoryEntry>)
    ensures IndexOk(Load(entries).0, Load(entries).1)
    ensures forall i :: 0 <= i < |entries| ==> entries[i].link in Load(entries).0
    ensures forall i :: 0 <= i < |entries| && (forall j :: i < j < |entries| ==> entries[j].link != entries[i].link)
                        ==> Load(entries).0[entries[i].link] == entries[i]
    ensures forall k :: k in Load(entries).0 ==> Load(entries).0[k] in entries
    decreases |entries|
  {
    if entries != [] {
      var init, e := entries[..|entries| - 1], entries[|entries| - 1];
      LoadSpec(init);
      var p := Load(init);
      assert entries == init + [e];
      LoadStep(init, e, p.0, p.1);
    }
  }

  /** One `put` of the loading loop keeps the facts `LoadSpec` states. */
  lemma LoadStep(init: seq<HistoryEntry>, e: HistoryEntry, index: map<string, HistoryEntry>, order: seq<string>)
    requires IndexOk(index, order)
    requires forall i :: 0 <= i < |init| ==> init[i].link in index
    requires forall i :: 0 <= i < |init| && (forall j :: i < j < |init| ==> init[j].link != init[i].link)
                         ==> index[init[i].link] == init[i]
    requires forall k :: k in index ==> index[k] in init
    ensures var entries, index' := init + [e], index[e.link := e];
            && IndexOk(index', PutOrder(index, order, e.link))
            && (forall i :: 0 <= i < |entries| ==> entries[i].link in index')
            && (forall i :: 0 <= i < |entries| && (forall j :: i < j < |entries| ==> entries[j].link != entries[i].link)
                            ==> index'[entries[i].link] == entries[i])
            && (forall k :: k in index' ==> index'[k] in entries)
  {
    var entries, index' := init + [e], index[e.link := e];
    PutValues(index, order, e);
    forall i | 0 <= i < |entries| && (forall j :: i < j < |entries| ==> entries[j].link != entries[i].link)
      ensures index'[entries[i].link] == entries[i]
    {
      if i < |init| {
        assert entries[|init|] == e;
        forall j | i < j < |init| ensures init[j].link != init[i].link {
          assert entries[j] == init[j];
        }
      }
    }
  }

  // ---------------------------------------------------------- recency view

  const HistoryCap: nat := 100

  /** `values.sortedByDescending { it.lastPlayedTs }.take(100)`. */
  function Recent(entries: seq<HistoryEntry>): seq<HistoryEntry> {
    Take(SortDesc(entries, PlayedAt), HistoryCap)
  }

  /** The recency view holds at most 100 entries, all drawn from the index, most
      recent first, and all of them when there are at most 100. */
  lemma RecentSpec(entries: seq<HistoryEntry>)
    ensures var r := Recent(entries);
            && |r| <= HistoryCap
            && SortedDesc(r, PlayedAt)
            && multiset(r) <= multiset(entries)
            && (|entries| <= HistoryCap ==> r == SortDesc(entries, PlayedAt))
  {
    var sorted := SortDesc(entries, PlayedAt);
    var r := Recent(entries);
    assert r == Take(sorted, HistoryCap);
    PrefixOfSorted(sorted, PlayedAt, |r|);
    TopDrawn(entries, PlayedAt, HistoryCap);
  }

  /** No entry left out of the recency view is more recent than one kept. */
  lemma RecentKeepsLatest(entries: seq<HistoryEntry>)
    ensures var r := Recent(entries);
            forall x: HistoryEntry, k: int :: x in multiset(entries) - multiset(r) && 0 <= k < |r| ==> PlayedAt(x) <= PlayedAt(r[k])
  {
    var r := Recent(entries);
    assert r == Take(SortDesc(entries, PlayedAt), HistoryCap);
    TopKeepsBest(entries, PlayedAt, HistoryCap);
  }

  /** Entries played in the same second appear in index order: those kept with any
      timestamp are the first of the index's entries with that timestamp. */
  lemma RecentStable(entries: seq<HistoryEntry>, ts: int)
    ensures var rv := WithKey(Recent(entries), PlayedAt, ts);
            |rv| <= |WithKey(entries, PlayedAt, ts)| && rv == WithKey(entries, PlayedAt, ts)[..|rv|]
  {
    TopStable(entries, PlayedAt, HistoryCap, ts);
  }

  /** An index holding one entry publishes just that entry. */
  lemma OneEntryPublished(index: map<string, HistoryEntry>, order: seq<string>, e: HistoryEntry)
    requires index == map[][e.link := e] && order == [e.link]
    ensures Recent(Values(index, order)) == [e]
  {
    var v := Values(index, order);
    assert v == [e];
    var sorted := SortDesc(v, PlayedAt);
    assert |sorted| == 1 && sorted[0] in multiset(v);
  }

  // ------------------------------------------------------------- rendering

  /** `String.format("%02d", n)`: at least two characters, zero-padded when `n` is a
      single digit; a negative number keeps its sign and is not padded further. */
  function Pad2(n: int): (r: string)
    ensures 0 <= n < 100 ==> |r| == 2
    ensures n >= 0 ==> |r| >= 2 && (forall i :: 0 <= i < |r| ==> '0' <= r[i] <= '9')
  {
    if 0 <= n < 10 then "0" + IntToString(n)
    else
      assert n >= 10 && n < 100 ==> NatToString(n) == NatToString(n / 10) + [DigitChar(n % 10)];
      IntToString(n)
  }

  lemma Pad2Value(n: nat)
    ensures DigitsValue(Pad2(n)) == n
  {
    if n < 10 {
      var p := Pad2(n);
      assert p[..|p| - 1] == "0";
      assert "0"[..0] == [];
    } else {
      NatToStringRoundTrip(n);
    }
  }

  /** `fmtTime(seconds)`: "00:00" for a non-positive value; otherwise the value as a
      32-bit `Int` split into hours, minutes and seconds with truncating division,
      "hh:mm:ss" when there are hours and "mm:ss" when there are none. */
  function FmtTime(seconds: int): (r: string)
    ensures |r| >= 5
  {
    if seconds <= 0 then "00:00"
    else
      var total := ToInt32(seconds);
      var m := TDiv(total, 60);
      var s := TMod(total, 60);
      var h := TDiv(m, 60);
      var mm := TMod(m, 60);
      Clock(h, mm, s)
  }

  /** Reads a clock text back: "mm:ss", or "h:mm:ss" with at least two hour digits. */
  function ClockValue(t: string): (r: Option<int>)
    ensures r.Some? ==> r.value >= 0
  {
    if |t| == 5 && t[2] == ':' then
      var m := ParseDigits(t[..2]);
      var s := ParseDigits(t[3..]);
      if m.Some? && s.Some? then Some(m.value * 60 + s.value) else None
    else if |t| >= 8 && t[|t| - 6] == ':' && t[|t| - 3] == ':' then
      var h := ParseDigits(t[..|t| - 6]);
      var m := ParseDigits(t[|t| - 5..|t| - 3]);
      var s := ParseDigits(t[|t| - 2..]);
      if h.Some? && m.Some? && s.Some? then Some(h.value * 3600 + m.value * 60 + s.value) else None
    else None
  }

  /** The clock text of hours, minutes and seconds fields. */
  function Clock(h: int, mm: int, s: int): string {
    if h > 0 then Pad2(h) + ":" + Pad2(mm) + ":" + Pad2(s) else Pad2(mm) + ":" + Pad2(s)
  }

  lemma DigitsRead(n: nat)
    ensures ParseDigits(Pad2(n)) == Some(n)
  {
    Pad2Value(n);
  }

  lemma ClockReadsBack(h: nat, mm: nat, s: nat)
    requires mm < 60 && s < 60
    ensures ClockValue(Clock(h, mm, s)) == Some(3600 * h + 60 * mm + s)
    ensures h == 0 <==> |Clock(h, mm, s)| == 5
  {
    DigitsRead(mm);
    DigitsRead(s);
    if h > 0 {
      DigitsRead(h);
      LongClockReads(Pad2(h), Pad2(mm), Pad2(s), h, mm, s);
    } else {
      ShortClockReads(Pad2(mm), Pad2(s), mm, s);
    }
  }

  /** An "h:mm:ss" text reads back as its three fields. */
  lemma LongClockReads(a: string, b: string, c: string, h: nat, mm: nat, s: nat)
    requires |a| >= 2 && |b| == 2 && |c| == 2
    requires ParseDigits(a) == Some(h) && ParseDigits(b) == Some(mm) && ParseDigits(c) == Some(s)
    ensures ClockValue(a + ":" + b + ":" + c) == Some(3600 * h + 60 * mm + s)
  {
    var t := a + ":" + b + ":" + c;
    assert |t| == |a| + 6 && t[|t| - 6] == ':' && t[|t| - 3] == ':';
    assert t[..|t| - 6] == a && t[|t| - 5..|t| - 3] == b && t[|t| - 2..] == c;
  }

  /** An "mm:ss" text reads back as its two fields. */
  lemma ShortClockReads(b: string, c: string, mm: nat, s: nat)
    requires |b| == 2 && |c| == 2
    requires ParseDigits(b) == Some(mm) && ParseDigits(c) == Some(s)
    ensures ClockValue(b + ":" + c) == Some(60 * mm + s)
  {
    var t := b + ":" + c;
    assert |t| == 5 && t[2] == ':' && t[..2] == b && t[3..] == c;
  }

  /** For a positive `Int` the text shows whole hours, then minutes and seconds each
      below 60. */
  lemma FmtTimeFields(seconds: int)
    requires 0 < seconds < 0x8000_0000
    ensures FmtTime(seconds) == Clock(seconds / 3600, seconds / 60 % 60, seconds % 60)
  {
    MinutesOfHour(seconds);
  }

  /** For every positive number of seconds that fits an `Int`, the clock text reads back
      as that number, and carries an hours field exactly when the value is an hour or
      more. */
  lemma FmtTimeRoundTrip(seconds: int)
    requires 0 < seconds < 0x8000_0000
    ensures ClockValue(FmtTime(seconds)) == Some(seconds)
    ensures seconds < 3600 <==> |FmtTime(seconds)| == 5
  {
    var h, m, s := seconds / 3600, seconds / 60 % 60, seconds % 60;
    FmtTimeFields(seconds);
    assert FmtTime(seconds) == Clock(h, m, s);
    ClockReadsBack(h, m, s);
    ClockSplit(seconds);
    assert 3600 * h + 60 * m + s == seconds;
  }

  /** Hours, minutes and seconds add back up to the whole. */
  lemma ClockSplit(seconds: nat)
    ensures seconds == 3600 * (seconds / 3600) + 60 * (seconds / 60 % 60) + seconds % 60
    ensures seconds < 3600 <==> seconds / 3600 == 0
  {
    var q := seconds / 60;
    MinutesOfHour(seconds);
    assert seconds == 60 * q + seconds % 60;
    assert q == 60 * (q / 60) + q % 60;
  }

  /** `humanTime(ts)` at time `now` (both in seconds): the elapsed time as a 32-bit
      `Int`, in the largest whole unit, or "just now" under a minute; "" when there is
      no timestamp. */
  function HumanTime(ts: int, now: int): (r: string)
    ensures r == "" <==> ts <= 0
    ensures r == "just now" <==> ts > 0 && ToInt32(now - ts) < 60
  {
    if ts <= 0 then ""
    else
      var delta := ToInt32(now - ts);
      if delta < 60 then "just now"
      else if delta < 3600 then IntToString(delta / 60) + " min ago"
      else if delta < 86400 then
        var hours := delta / 3600;
        if hours == 1 then "1 hour ago" else IntToString(hours) + " hours ago"
      else
        var days := delta / 86400;
        if days == 1 then "1 day ago" else IntToString(days) + " days ago"
  }

  /** The count shown is the number of whole units elapsed, which is never zero and,
      below a day, less than the next unit. */
  lemma HumanTimeUnits(ts: int, now: int)
    requires ts > 0 && 0 <= now - ts < 0x8000_0000
    ensures var d := now - ts;
            && (60 <= d < 3600 ==> HumanTime(ts, now) == NatToString(d / 60) + " min ago" && 1 <= d / 60 < 60)
            && (3600 <= d < 86400 ==> HumanTime(ts, now) == (if d / 3600 == 1 then "1 hour ago" else NatToString(d / 3600) + " hours ago") && 1 <= d / 3600 < 24)
            && (86400 <= d ==> HumanTime(ts, now) == (if d / 86400 == 1 then "1 day ago" else NatToString(d / 86400) + " days ago") && 1 <= d / 86400)
  {
  }

  datatype HistoryItem = HistoryItem(title: string, info: string, link: string)

  /** The info line: "position / duration" when a duration is known, else "Player",
      followed by " | " and the age of the entry when it has a timestamp. */
  function Info(e: HistoryEntry, now: int): string {
    var info := if e.duration > 0 then FmtTime(e.position) + " / " + FmtTime(e.duration) else "Player";
    if e.lastPlayedTs > 0 then info + " | " + HumanTime(e.lastPlayedTs, now) else info
  }

  /** `renderHistory(entries)`: one item per entry, in order, titled by its name. */
  function RenderHistory(entries: seq<HistoryEntry>, now: int): (r: seq<HistoryItem>)
    ensures |r| == |entries|
    ensures forall i :: 0 <= i < |r| ==>
              r[i].title == entries[i].name && r[i].link == entries[i].link && r[i].info == Info(entries[i], now)
  {
    seq(|entries|, i requires 0 <= i < |entries| => HistoryItem(entries[i].name, Info(entries[i], now), entries[i].link))
  }
}
