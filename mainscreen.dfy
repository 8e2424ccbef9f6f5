/** The small pure helpers of the main screen: the quality badge shown on a result,
    whether a history item is playable from an available server, the year picker's
    entries and which of the two AI panels the results tab shows. */
module MainScreen {
  import opened Common
  import opened Catalog

  // ------------------------------------------------------- extractQualityBadge

  /** `extractQualityBadge(title)`: the rules are tried in order on the lower-cased
      title and the first whose marker occurs wins. */
  function ExtractQualityBadge(title: string): (r: Option<string>)
    ensures r.Some? ==> r.value in {"SD", "UHD", "FHD", "HD"}
  {
    var text := Lower(title);
    if Contains(text, "480p") || Contains(text, "sd") then Some("SD")
    else if Contains(text, "2160p") || Contains(text, "4k") then Some("UHD")
    else if Contains(text, "1080p") || Contains(text, "fhd") then Some("FHD")
    else if Contains(text, "720p") || Contains(text, "hd") then Some("HD")
    else None
  }

  /** The markers of a badge, in the order the rules are tried. */
  function Markers(badge: string): seq<string> {
    if badge == "SD" then ["480p", "sd"]
    else if badge == "UHD" then ["2160p", "4k"]
    else if badge == "FHD" then ["1080p", "fhd"]
    else if badge == "HD" then ["720p", "hd"]
    else []
  }

  const BadgeOrder: seq<string> := ["SD", "UHD", "FHD", "HD"]

  /** Some marker of `badge` occurs in `text`. */
  predicate Marked(text: string, badge: string) {
    exists i :: 0 <= i < |Markers(badge)| && Contains(text, Markers(badge)[i])
  }

  /** A badge is marked when one of its two markers occurs. */
  lemma MarkedIff(text: string, badge: string)
    requires badge in BadgeOrder
    ensures Marked(text, badge) <==> Contains(text, Markers(badge)[0]) || Contains(text, Markers(badge)[1])
  {
    assert |Markers(badge)| == 2;
  }

  /** A title gets a badge exactly when one of its markers occurs in the lower-cased
      title and no marker of a badge tried earlier does. */
  lemma BadgeIsFirstMarked(title: string, k: nat)
    requires k < |BadgeOrder|
    ensures ExtractQualityBadge(title) == Some(BadgeOrder[k]) <==>
              Marked(Lower(title), BadgeOrder[k]) && forall j :: 0 <= j < k ==> !Marked(Lower(title), BadgeOrder[j])
  {
    var text := Lower(title);
    MarkedIff(text, "SD");
    MarkedIff(text, "UHD");
    MarkedIff(text, "FHD");
    MarkedIff(text, "HD");
    assert BadgeOrder[0] == "SD" && BadgeOrder[1] == "UHD" && BadgeOrder[2] == "FHD" && BadgeOrder[3] == "HD";
  }

  const AllMarkers: seq<string> := ["480p", "sd", "2160p", "4k", "1080p", "fhd", "720p", "hd"]

  /** There is no badge exactly when none of the eight markers occurs. */
  lemma NoBadgeIff(title: string)
    ensures ExtractQualityBadge(title).None? <==>
              forall i :: 0 <= i < |AllMarkers| ==> !Contains(Lower(title), AllMarkers[i])
  {
    var text := Lower(title);
    if ExtractQualityBadge(title).None? {
      forall i | 0 <= i < |AllMarkers| ensures !Contains(text, AllMarkers[i]) {
        if i == 0 { assert AllMarkers[i] == "480p"; }
        else if i == 1 { assert AllMarkers[i] == "sd"; }
        else if i == 2 { assert AllMarkers[i] == "2160p"; }
        else if i == 3 { assert AllMarkers[i] == "4k"; }
        else if i == 4 { assert AllMarkers[i] == "1080p"; }
        else if i == 5 { assert AllMarkers[i] == "fhd"; }
        else if i == 6 { assert AllMarkers[i] == "720p"; }
        else { assert AllMarkers[i] == "hd"; }
      }
    } else {
      assert AllMarkers[0] == "480p" && AllMarkers[1] == "sd" && AllMarkers[2] == "2160p" && AllMarkers[3] == "4k";
      assert AllMarkers[4] == "1080p" && AllMarkers[5] == "fhd" && AllMarkers[6] == "720p" && AllMarkers[7] == "hd";
    }
  }

  /** The badge does not depend on the case of the title. */
  lemma BadgeIgnoresCase(title: string)
    ensures ExtractQualityBadge(Lower(title)) == ExtractQualityBadge(title)
  {
    LowerIdempotent(title);
  }

  /** Upper- and lower-case titles get the same badge. */
  lemma BadgeOfUpper(title: string)
    ensures ExtractQualityBadge(Upper(title)) == ExtractQualityBadge(title)
  {
    LowerOfUpper(title);
  }

  lemma {:induction false} LowerOfUpper(s: string)
    ensures Lower(Upper(s)) == Lower(s)
  {
    if s != [] {
      LowerOfUpper(s[1..]);
      assert Upper(s)[1..] == Upper(s[1..]);
    }
  }

  /** An "sd" anywhere in the title wins over every other marker. */
  lemma SdWins(title: string)
    requires Contains(Lower(title), "sd")
    ensures ExtractQualityBadge(title) == Some("SD")
  {
  }

  /** `sub` occurs at `i` in the lower-cased `s`. */
  lemma OccursLowered(s: string, sub: string, i: nat)
    requires i + |sub| <= |s|
    requires forall j :: 0 <= j < |sub| ==> LowerChar(s[i + j]) == sub[j]
    ensures Contains(Lower(s), sub)
  {
    LowerAt(s);
    assert Lower(s)[i..i + |sub|] == sub by {
      forall j | 0 <= j < |sub| ensures Lower(s)[i..i + |sub|][j] == sub[j] {
        assert Lower(s)[i + j] == LowerChar(s[i + j]);
      }
    }
    assert OccursAt(Lower(s), sub, i);
    ContainsIff(Lower(s), sub);
  }

  /** "Wednesday 1080p" shows "SD", not "FHD": the "sd" inside "wednesday" is tried
      first. */
  lemma WednesdayIsSD()
    ensures ExtractQualityBadge("Wednesday 1080p") == Some("SD")
  {
    OccursLowered("Wednesday 1080p", "sd", 5);
    SdWins("Wednesday 1080p");
  }

  // ------------------------------------------------------------- isAvailable

  /** Kotlin `s.contains(sub, ignoreCase = true)`, on ASCII letters. */
  predicate ContainsIgnoreCase(s: string, sub: string) {
    Contains(Lower(s), Lower(sub))
  }

  /** The history row's `isAvailable`: some available server occurs in the item's link,
      ignoring case. */
  predicate IsAvailable(servers: seq<string>, link: string) {
    servers != [] && (ContainsIgnoreCase(link, servers[0]) || IsAvailable(servers[1..], link))
  }

  lemma {:induction false} IsAvailableIff(servers: seq<string>, link: string)
    ensures IsAvailable(servers, link) <==> exists k :: 0 <= k < |servers| && ContainsIgnoreCase(link, servers[k])
  {
    if servers != [] {
      IsAvailableIff(servers[1..], link);
      assert forall k :: 1 <= k < |servers| ==> servers[k] == servers[1..][k - 1];
      if exists k :: 0 <= k < |servers| && ContainsIgnoreCase(link, servers[k]) {
        var k :| 0 <= k < |servers| && ContainsIgnoreCase(link, servers[k]);
        if k > 0 { assert ContainsIgnoreCase(link, servers[1..][k - 1]); }
      }
    }
  }

  /** A case-sensitive occurrence is also one ignoring case. */
  lemma ContainsLowered(s: string, sub: string)
    requires Contains(s, sub)
    ensures Contains(Lower(s), Lower(sub))
  {
    ContainsIff(s, sub);
    var i :| OccursAt(s, sub, i);
    LowerAt(s);
    LowerAt(sub);
    assert Lower(s)[i..i + |sub|] == Lower(sub) by {
      forall j | 0 <= j < |sub| ensures Lower(s)[i..i + |sub|][j] == Lower(sub)[j] {
        assert s[i + j] == sub[j];
      }
    }
    assert OccursAt(Lower(s), Lower(sub), i);
    ContainsIff(Lower(s), Lower(sub));
  }

  /** Every link the catalog accepts as servable is shown as available; for lower-case
      links and servers the two agree. */
  lemma {:induction false} ServableIsAvailable(servers: seq<string>, link: string)
    ensures Servable(servers, link) ==> IsAvailable(servers, link)
    ensures Lower(link) == link && (forall k :: 0 <= k < |servers| ==> Lower(servers[k]) == servers[k])
            ==> (IsAvailable(servers, link) <==> Servable(servers, link))
  {
    if servers != [] {
      ServableIsAvailable(servers[1..], link);
      assert forall k :: 1 <= k < |servers| ==> servers[k] == servers[1..][k - 1];
      if Contains(link, servers[0]) {
        ContainsLowered(link, servers[0]);
      }
    }
  }

  // -------------------------------------------------------------- the years

  const NoYear := "No Year"
  const FirstYear := 2000

  /** `(from downTo 2000).map { it.toString() }`. */
  function YearsDown(from: int): (r: seq<string>)
    ensures |r| == Max(0, from - FirstYear + 1)
    decreases from - FirstYear + 1
  {
    if from < FirstYear then [] else [NatToString(from)] + YearsDown(from - 1)
  }

  /** Entry `i` of the years counted down from `from` is the year `from - i`. */
  lemma {:induction false} YearsDownAt(from: int, i: nat)
    requires i < |YearsDown(from)|
    ensures from - i >= FirstYear
    ensures YearsDown(from)[i] == NatToString(from - i)
    decreases i
  {
    if i > 0 {
      YearsDownAt(from - 1, i - 1);
    }
  }

  /** The year picker: "No Year", then the years from the current one down to 2000. */
  function Years(currentYear: int): seq<string> {
    [NoYear] + YearsDown(currentYear)
  }

  /** "No Year" first; then `currentYear - 2000 + 1` entries, each reading back as its
      year, the years falling by one from `currentYear` to 2000. */
  lemma YearsShape(currentYear: int)
    requires currentYear >= FirstYear - 1
    ensures var r := Years(currentYear);
            && |r| == currentYear - FirstYear + 2
            && r[0] == NoYear
            && forall i :: 1 <= i < |r| ==> ParseDigits(r[i]) == Some(currentYear - i + 1)
  {
    var r := Years(currentYear);
    forall i | 1 <= i < |r| ensures ParseDigits(r[i]) == Some(currentYear - i + 1) {
      YearAt(currentYear, i);
    }
  }

  /** Entry `i` after "No Year" is the year `currentYear - i + 1`. */
  lemma {:induction false} YearAt(currentYear: int, i: int)
    requires 1 <= i < |Years(currentYear)|
    ensures currentYear - i + 1 >= FirstYear
    ensures Years(currentYear)[i] == NatToString(currentYear - i + 1)
    ensures ParseDigits(Years(currentYear)[i]) == Some(currentYear - i + 1)
  {
    var y, down := currentYear - i + 1, YearsDown(currentYear);
    YearsDownAt(currentYear, i - 1);
    assert Years(currentYear)[i] == down[i - 1];
    ParseNatToString(y);
  }

  /** Later entries are earlier years. */
  lemma YearsDescending(currentYear: int, i: int, j: int)
    requires currentYear >= FirstYear - 1
    requires 1 <= i < j < |Years(currentYear)|
    ensures var r := Years(currentYear);
            ParseDigits(r[i]).Some? && ParseDigits(r[j]).Some? && ParseDigits(r[j]).value < ParseDigits(r[i]).value
  {
    YearsShape(currentYear);
  }

  /** A year is offered exactly when it lies between 2000 and the current year. */
  lemma {:induction false} YearOffered(currentYear: int, y: nat)
    ensures NatToString(y) in Years(currentYear) <==> FirstYear <= y <= currentYear
  {
    assert Years(currentYear) == [NoYear] + YearsDown(currentYear);
    NoYearIsNoNumber(y);
    CountedDown(currentYear, y);
  }

  lemma NoYearIsNoNumber(y: nat)
    ensures NatToString(y) != NoYear
  {
    assert NoYear[0] == 'N';
  }

  /** The years counted down from `from` are the texts of the years from 2000 to `from`. */
  lemma {:induction false} CountedDown(from: int, y: nat)
    ensures NatToString(y) in YearsDown(from) <==> FirstYear <= y <= from
  {
    var down := YearsDown(from);
    if FirstYear <= y <= from {
      YearsDownAt(from, from - y);
    }
    if NatToString(y) in down {
      var i :| 0 <= i < |down| && down[i] == NatToString(y);
      CountedDownAt(from, y, i);
    }
  }

  lemma {:induction false} CountedDownAt(from: int, y: nat, i: nat)
    requires i < |YearsDown(from)| && YearsDown(from)[i] == NatToString(y)
    ensures FirstYear <= y <= from
  {
    YearsDownAt(from, i);
    SameText(YearsDown(from)[i], y, from - i);
  }

  // ------------------------------------------------------ the results panels

  /** `showAi`: no search results, some AI picks and some history. */
  predicate ShowAi(results: nat, aiResults: nat, history: nat) {
    results == 0 && aiResults > 0 && history > 0
  }

  /** `showAiHint`: no search results, no AI picks yet, and some history. */
  predicate ShowAiHint(results: nat, aiResults: nat, history: nat) {
    results == 0 && aiResults == 0 && history > 0
  }

  /** The AI panels are never shown together, only without search results and with
      some history, and with those one of them is shown. */
  lemma AiPanels(results: nat, aiResults: nat, history: nat)
    ensures !(ShowAi(results, aiResults, history) && ShowAiHint(results, aiResults, history))
    ensures ShowAi(results, aiResults, history) || ShowAiHint(results, aiResults, history)
            <==> results == 0 && history > 0
  {
  }
}
