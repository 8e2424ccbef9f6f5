/** The decisions the player screen makes over the tracks ExoPlayer reports: which track
    a saved selection refers to, which track is selected now, the subtitle menu, the
    clock text, the MIME type of a side-loaded subtitle file and the double-tap seek. */
module Player {
  import opened Common
  import History

  // ---------------------------------------------------------------- tracks

  /** `C.TRACK_TYPE_AUDIO` and `C.TRACK_TYPE_TEXT` of media3. */
  const TrackTypeAudio: int := 1
  const TrackTypeText: int := 3

  /** One track of a group: its format's label and language, and whether the player
      currently plays it (`group.isTrackSelected(i)`). */
  datatype Track = Track(labelText: Option<string>, language: Option<string>, selected: bool)

  /** A `Tracks.Group`: its track type and its tracks in order. */
  datatype Group = Group(kind: int, tracks: seq<Track>)

  /** A `TrackSelectionOverride` choosing one track: the group's position in the list
      and the track's position in the group. */
  datatype Override = Override(group: int, track: int)

  /** Position (g, i) names a track of a group of type `kind`. */
  predicate TrackOf(groups: seq<Group>, kind: int, g: int, i: int) {
    0 <= g < |groups| && groups[g].kind == kind && 0 <= i < |groups[g].tracks|
  }

  /** (g', i') comes before (g, i) in group order, then track order. */
  predicate Earlier(g': int, i': int, g: int, i: int) {
    g' < g || (g' == g && i' < i)
  }

  // -------------------------------------------------------- findTrackOverride

  /** The saved indices name an existing track of the requested type. */
  predicate IndexValid(groups: seq<Group>, kind: int, groupIndex: Option<int>, trackIndex: Option<int>) {
    groupIndex.Some? && trackIndex.Some? && TrackOf(groups, kind, groupIndex.value, trackIndex.value)
  }

  /** The track carries the saved label (when one is saved) or the saved language (when
      one is saved). */
  predicate Matches(t: Track, labelText: Option<string>, language: Option<string>) {
    (!IsNullOrBlank(labelText) && t.labelText == labelText) || (!IsNullOrBlank(language) && t.language == language)
  }

  predicate MatchAt(groups: seq<Group>, kind: int, labelText: Option<string>, language: Option<string>, g: int, i: int) {
    TrackOf(groups, kind, g, i) && Matches(groups[g].tracks[i], labelText, language)
  }

  /** No track before (g, i) matches. */
  ghost predicate NoMatchBefore(groups: seq<Group>, kind: int, labelText: Option<string>, language: Option<string>, g: int, i: int) {
    forall g', i' :: MatchAt(groups, kind, labelText, language, g', i') ==> !Earlier(g', i', g, i)
  }

  /** `findTrackOverride`: the saved indices when they are still valid; otherwise the
      first track of the type, in group then track order, whose label or language
      matches; otherwise nothing. */
  method FindTrackOverride(groups: seq<Group>, kind: int, labelText: Option<string>, language: Option<string>,
                           groupIndex: Option<int>, trackIndex: Option<int>) returns (r: Option<Override>)
    ensures IndexValid(groups, kind, groupIndex, trackIndex) ==> r == Some(Override(groupIndex.value, trackIndex.value))
    ensures !IndexValid(groups, kind, groupIndex, trackIndex) && r.Some? ==>
              MatchAt(groups, kind, labelText, language, r.value.group, r.value.track) &&
              NoMatchBefore(groups, kind, labelText, language, r.value.group, r.value.track)
    ensures !IndexValid(groups, kind, groupIndex, trackIndex) && r.None? ==>
              NoMatchBefore(groups, kind, labelText, language, |groups|, 0)
    ensures r.Some? ==> TrackOf(groups, kind, r.value.group, r.value.track)
    ensures (!IndexValid(groups, kind, groupIndex, trackIndex) && IsNullOrBlank(labelText) && IsNullOrBlank(language)) ==> r.None?
  {
    if groupIndex.Some? && trackIndex.Some? && TrackOf(groups, kind, groupIndex.value, trackIndex.value) {
      return Some(Override(groupIndex.value, trackIndex.value));
    }
    var g := 0;
    while g < |groups|
      invariant 0 <= g <= |groups|
      invariant NoMatchBefore(groups, kind, labelText, language, g, 0)
    {
      if groups[g].kind == kind {
        var i := 0;
        while i < |groups[g].tracks|
          invariant 0 <= i <= |groups[g].tracks|
          invariant NoMatchBefore(groups, kind, labelText, language, g, i)
        {
          if Matches(groups[g].tracks[i], labelText, language) {
            return Some(Override(g, i));
          }
          i := i + 1;
        }
      }
      g := g + 1;
    }
    return None;
  }

  // ------------------------------------------------------ getSelectedTrackInfo

  /** `SelectedTrackInfo`: the format's label and language and the track's position. */
  datatype SelectedTrackInfo = SelectedTrackInfo(labelText: Option<string>, language: Option<string>, groupIndex: int, trackIndex: int)

  predicate SelectedAt(groups: seq<Group>, kind: int, g: int, i: int) {
    TrackOf(groups, kind, g, i) && groups[g].tracks[i].selected
  }

  ghost predicate NoSelectedBefore(groups: seq<Group>, kind: int, g: int, i: int) {
    forall g', i' :: SelectedAt(groups, kind, g', i') ==> !Earlier(g', i', g, i)
  }

  /** `getSelectedTrackInfo`: the first selected track of the type, in group then track
      order, with its label and language; nothing when no track of the type is
      selected. */
  method GetSelectedTrackInfo(groups: seq<Group>, kind: int) returns (r: Option<SelectedTrackInfo>)
    ensures r.Some? ==> SelectedAt(groups, kind, r.value.groupIndex, r.value.trackIndex) &&
                        NoSelectedBefore(groups, kind, r.value.groupIndex, r.value.trackIndex)
    ensures r.Some? ==> r.value.labelText == groups[r.value.groupIndex].tracks[r.value.trackIndex].labelText &&
                        r.value.language == groups[r.value.groupIndex].tracks[r.value.trackIndex].language
    ensures r.None? <==> NoSelectedBefore(groups, kind, |groups|, 0)
  {
    var g := 0;
    while g < |groups|
      invariant 0 <= g <= |groups|
      invariant NoSelectedBefore(groups, kind, g, 0)
    {
      if groups[g].kind == kind {
        var i := 0;
        while i < |groups[g].tracks|
          invariant 0 <= i <= |groups[g].tracks|
          invariant NoSelectedBefore(groups, kind, g, i)
        {
          var t := groups[g].tracks[i];
          if t.selected {
            assert SelectedAt(groups, kind, g, i);
            return Some(SelectedTrackInfo(t.labelText, t.language, g, i));
          }
          i := i + 1;
        }
      }
      g := g + 1;
    }
    return None;
  }

  // ---------------------------------------------------- buildTextTrackOptions

  /** A `TextTrackOption` of the subtitle menu. */
  datatype TextTrackOption = TextTrackOption(groupIndex: int, trackIndex: int, labelText: string, isSelected: bool)

  /** The menu label of track `i` of its group: its label, else its language in upper
      case, else "Subtitle" and its one-based number. */
  function OptionLabel(t: Track, i: nat): string {
    if !IsNullOrBlank(t.labelText) then t.labelText.value
    else if !IsNullOrBlank(t.language) then Upper(t.language.value)
    else "Subtitle " + NatToString(i + 1)
  }

  /** Upper-casing keeps every character that is not a lower-case letter, so it keeps
      a text that is not blank non-blank. */
  lemma UpperKeepsNonBlank(s: string)
    requires !IsBlank(s)
    ensures !IsBlank(Upper(s))
  {
    var k :| 0 <= k < |s| && !IsWhitespace(s[k]);
    UpperAt(s);
    assert !IsWhitespace(Upper(s)[k]);
  }

  /** Every menu label is non-blank. */
  lemma OptionLabelNonBlank(t: Track, i: nat)
    ensures !IsBlank(OptionLabel(t, i))
  {
    if IsNullOrBlank(t.labelText) {
      if !IsNullOrBlank(t.language) {
        UpperKeepsNonBlank(t.language.value);
      } else {
        assert !IsWhitespace(OptionLabel(t, i)[0]);
      }
    }
  }

  /** The menu labels of a group's tracks, in order. */
  function GroupLabels(ts: seq<Track>): (r: seq<string>)
    ensures |r| == |ts|
  {
    if ts == [] then [] else GroupLabels(ts[..|ts| - 1]) + [OptionLabel(ts[|ts| - 1], |ts| - 1)]
  }

  lemma {:induction false} GroupLabelsAt(ts: seq<Track>, i: nat)
    requires i < |ts|
    ensures GroupLabels(ts)[i] == OptionLabel(ts[i], i)
  {
    if i < |ts| - 1 {
      GroupLabelsAt(ts[..|ts| - 1], i);
    }
  }

  /** The option a text track gets. */
  function OptionFor(groups: seq<Group>, g: int, i: int): TextTrackOption
    requires TrackOf(groups, TrackTypeText, g, i)
  {
    TextTrackOption(g, i, GroupLabels(groups[g].tracks)[i], groups[g].tracks[i].selected)
  }

  /** The number of text tracks in the first `n` groups: the place in the menu of the
      first track of group `n`. */
  function TextCount(groups: seq<Group>, n: nat): nat
    requires n <= |groups|
  {
    if n == 0 then 0
    else TextCount(groups, n - 1) + (if groups[n - 1].kind == TrackTypeText then |groups[n - 1].tracks| else 0)
  }

  /** Tracks of earlier groups come first in the menu. */
  lemma {:induction false} CountMonotone(groups: seq<Group>, n: nat)
    requires n <= |groups|
    ensures forall g, i :: 0 <= g < n && TrackOf(groups, TrackTypeText, g, i) ==> TextCount(groups, g) + i < TextCount(groups, n)
  {
    if n > 0 {
      CountMonotone(groups, n - 1);
    }
  }

  /** Text track (g, i) has its option at its place in the menu. */
  ghost predicate Placed(groups: seq<Group>, options: seq<TextTrackOption>, g: int, i: int)
    requires TrackOf(groups, TrackTypeText, g, i)
  {
    TextCount(groups, g) + i < |options| && options[TextCount(groups, g) + i] == OptionFor(groups, g, i)
  }

  /** The option is the option of a text track of a group before `n`. */
  ghost predicate OfTrack(groups: seq<Group>, o: TextTrackOption, n: int) {
    o.groupIndex < n && TrackOf(groups, TrackTypeText, o.groupIndex, o.trackIndex) &&
    o == OptionFor(groups, o.groupIndex, o.trackIndex)
  }

  /** Appending the option of track i of text group g keeps every earlier option in
      its place and every option a text track's. */
  lemma {:induction false} AppendPlaced(groups: seq<Group>, options: seq<TextTrackOption>, g: nat, i: nat, o: TextTrackOption)
    requires g < |groups| && groups[g].kind == TrackTypeText && i < |groups[g].tracks|
    requires |options| == TextCount(groups, g) + i
    requires forall g', i' :: g' < g && TrackOf(groups, TrackTypeText, g', i') ==> Placed(groups, options, g', i')
    requires forall i' :: 0 <= i' < i ==> Placed(groups, options, g, i')
    requires forall k :: 0 <= k < |options| ==> OfTrack(groups, options[k], g + 1)
    requires o == OptionFor(groups, g, i)
    ensures var next := options + [o];
            && (forall g', i' :: g' < g && TrackOf(groups, TrackTypeText, g', i') ==> Placed(groups, next, g', i'))
            && (forall i' :: 0 <= i' < i + 1 ==> Placed(groups, next, g, i'))
            && (forall k :: 0 <= k < |next| ==> OfTrack(groups, next[k], g + 1))
  {
    var next := options + [o];
    forall g', i' | g' < g && TrackOf(groups, TrackTypeText, g', i')
      ensures Placed(groups, next, g', i')
    {
      assert Placed(groups, options, g', i');
      assert next[TextCount(groups, g') + i'] == options[TextCount(groups, g') + i'];
    }
    forall i' | 0 <= i' <= i
      ensures Placed(groups, next, g, i')
    {
      if i' < i {
        assert Placed(groups, options, g, i');
        assert next[TextCount(groups, g) + i'] == options[TextCount(groups, g) + i'];
      } else {
        assert next[TextCount(groups, g) + i] == o;
      }
    }
    forall k | 0 <= k < |next| ensures OfTrack(groups, next[k], g + 1) {
      if k < |options| {
        assert next[k] == options[k];
      }
    }
  }

  /** `buildTextTrackOptions`: one option per track of every text group, in group then
      track order: track i of group g is option number TextCount(groups, g) + i, and
      every option is some text track's. */
  method BuildTextTrackOptions(groups: seq<Group>) returns (options: seq<TextTrackOption>)
    ensures |options| == TextCount(groups, |groups|)
    ensures forall g, i :: TrackOf(groups, TrackTypeText, g, i) ==> Placed(groups, options, g, i)
    ensures forall k :: 0 <= k < |options| ==> OfTrack(groups, options[k], |groups|)
  {
    options := [];
    var g := 0;
    while g < |groups|
      invariant 0 <= g <= |groups|
      invariant |options| == TextCount(groups, g)
      invariant forall g', i' :: g' < g && TrackOf(groups, TrackTypeText, g', i') ==> Placed(groups, options, g', i')
      invariant forall k :: 0 <= k < |options| ==> OfTrack(groups, options[k], g)
    {
      if groups[g].kind == TrackTypeText {
        var ts := groups[g].tracks;
        var i := 0;
        while i < |ts|
          invariant 0 <= i <= |ts|
          invariant |options| == TextCount(groups, g) + i
          invariant forall g', i' :: g' < g && TrackOf(groups, TrackTypeText, g', i') ==> Placed(groups, options, g', i')
          invariant forall i' :: 0 <= i' < i ==> Placed(groups, options, g, i')
          invariant forall k :: 0 <= k < |options| ==> OfTrack(groups, options[k], g + 1)
        {
          var o := TextTrackOption(g, i, OptionLabel(ts[i], i), ts[i].selected);
          GroupLabelsAt(ts, i);
          assert o == OptionFor(groups, g, i);
          AppendPlaced(groups, options, g, i, o);
          options := options + [o];
          i := i + 1;
        }
      }
      CountMonotone(groups, g);
      g := g + 1;
    }
  }

  // ---------------------------------------------------------------- formatTime

  /** `formatTime(ms)` of the player's controls: "00:00" for a non-positive time;
      otherwise the whole seconds as a 32-bit `Int`, split into hours, minutes and
      seconds with truncating division. */
  function PlayerFormatTime(ms: int): (r: string)
    ensures ms <= 0 ==> r == "00:00"
  {
    if ms <= 0 then "00:00"
    else
      var total := ToInt32(TDiv(ms, 1000));
      var h := TDiv(total, 3600);
      var m := TDiv(TMod(total, 3600), 60);
      var s := TMod(total, 60);
      History.Clock(h, m, s)
  }

  /** Below 2^31 whole seconds the player's clock shows whole hours, then minutes and
      seconds each below 60. */
  lemma PlayerFormatTimeFields(ms: int)
    requires 1000 <= ms < 1000 * 0x8000_0000
    ensures var t := ms / 1000;
            PlayerFormatTime(ms) == History.Clock(t / 3600, t / 60 % 60, t % 60)
  {
    var t := ms / 1000;
    DivUnique(ms, 1000, t, ms % 1000);
    assert 1 <= t < 0x8000_0000;
    assert ToInt32(TDiv(ms, 1000)) == t;
    MinutesOfHour(t);
  }

  /** The player's clock and the history list's clock agree: the player shows the
      history rendering of its time in whole seconds. */
  lemma PlayerMatchesHistory(ms: int)
    requires ms < 1000 * 0x8000_0000
    ensures PlayerFormatTime(ms) == History.FmtTime(TDiv(ms, 1000))
  {
    if ms >= 1000 {
      PlayerFormatTimeFields(ms);
      History.FmtTimeFields(ms / 1000);
    } else if ms > 0 {
      assert TDiv(ms, 1000) == 0;
      assert History.Pad2(0) == "00";
    }
  }

  /** Below 2^31 seconds the player's clock reads back as the whole seconds of the
      time, and shows an hours field exactly from one hour on. */
  lemma PlayerFormatTimeRoundTrip(ms: int)
    requires 1000 <= ms < 1000 * 0x8000_0000
    ensures History.ClockValue(PlayerFormatTime(ms)) == Some(ms / 1000)
    ensures ms / 1000 < 3600 <==> |PlayerFormatTime(ms)| == 5
  {
    PlayerMatchesHistory(ms);
    History.FmtTimeRoundTrip(ms / 1000);
  }

  // ------------------------------------------------------ guessSubtitleMimeType

  /** Kotlin `s.substringAfterLast(c, "")`: what follows the last `c`, or "" when there
      is none. */
  function AfterLast(s: string, c: char): (r: string)
    ensures c !in s ==> r == ""
    ensures c in s ==> EndsWith(s, [c] + r)
    ensures c !in r
  {
    if |s| == 0 || s[|s| - 1] == c then ""
    else if c in s[..|s| - 1] then
      assert s == s[..|s| - 1] + [s[|s| - 1]];
      AfterLast(s[..|s| - 1], c) + [s[|s| - 1]]
    else
      assert c !in s by {
        assert s == s[..|s| - 1] + [s[|s| - 1]];
      }
      ""
  }

  /** The text after the last dot of a name that ends in `"." + ext` is `ext`. */
  lemma {:induction false} AfterLastOf(stem: string, ext: string, c: char)
    requires c !in ext
    ensures AfterLast(stem + [c] + ext, c) == ext
    decreases |ext|
  {
    var s := stem + [c] + ext;
    if ext != [] {
      var init := ext[..|ext| - 1];
      assert s[..|s| - 1] == stem + [c] + init;
      assert c in s[..|s| - 1];
      AfterLastOf(stem, init, c);
      assert ext == init + [ext[|ext| - 1]];
    } else {
      assert s[|s| - 1] == c;
    }
  }

  /** The `when` over the lower-cased extension. */
  function MimeForExtension(ext: string): (r: string)
    ensures ext == "srt" <==> r == "application/x-subrip"
    ensures ext == "ass" || ext == "ssa" <==> r == "text/x-ssa"
    ensures ext == "ttml" || ext == "dfxp" || ext == "xml" <==> r == "application/ttml+xml"
    ensures r == "text/vtt" <==> !(ext in {"srt", "ass", "ssa", "ttml", "dfxp", "xml"})
  {
    if ext == "srt" then "application/x-subrip"
    else if ext == "vtt" then "text/vtt"
    else if ext == "ass" || ext == "ssa" then "text/x-ssa"
    else if ext == "ttml" || ext == "dfxp" || ext == "xml" then "application/ttml+xml"
    else "text/vtt"
  }

  /** `guessSubtitleMimeType`: the content resolver's type when it gives a non-blank
      one; otherwise the type of the lower-cased extension of the file's name. */
  function SubtitleMime(resolverType: Option<string>, name: string): (r: string)
    ensures !IsNullOrBlank(resolverType) ==> r == resolverType.value
    ensures IsNullOrBlank(resolverType) ==> r == MimeForExtension(Lower(AfterLast(name, '.')))
  {
    if !IsNullOrBlank(resolverType) then resolverType.value
    else MimeForExtension(Lower(AfterLast(name, '.')))
  }

  /** Without a resolver type, a name without a dot is taken as WebVTT, and a name
      `stem.ext` gets the type of `ext` whatever its case. */
  lemma MimeOfName(stem: string, ext: string)
    requires '.' !in ext
    ensures SubtitleMime(None, stem) == (if '.' in stem then MimeForExtension(Lower(AfterLast(stem, '.'))) else "text/vtt")
    ensures SubtitleMime(None, stem + "." + ext) == MimeForExtension(Lower(ext))
  {
    AfterLastOf(stem, ext, '.');
    assert Lower("") == "";
  }

  // -------------------------------------------------------------- double tap

  /** Which third of the screen was double-tapped. */
  datatype TapRegion = LeftThird | MiddleThird | RightThird

  datatype TapAction = SeekTo(position: int) | Pause | Play

  const SeekStepMs: int := 10_000

  /** Back: ten seconds earlier, not before the start. */
  function SeekBack(pos: int): (r: int)
    ensures r >= 0 && r >= pos - SeekStepMs
    ensures r == pos - SeekStepMs || r == 0
  {
    Max(0, pos - SeekStepMs)
  }

  /** Forward: ten seconds later, not past a known (positive) duration. */
  function SeekForward(pos: int, dur: int): (r: int)
    ensures r <= pos + SeekStepMs
    ensures dur > 0 ==> r <= dur && (r == pos + SeekStepMs || r == dur)
    ensures dur <= 0 ==> r == pos + SeekStepMs
  {
    if dur > 0 then Min(dur, pos + SeekStepMs) else pos + SeekStepMs
  }

  /** The double-tap handler: back on the left third, forward on the right third (an
      unknown or non-positive duration counts as none), play/pause in the middle. */
  function DoubleTap(region: TapRegion, pos: int, duration: int, isPlaying: bool): (r: TapAction)
    ensures region == MiddleThird <==> !r.SeekTo?
    ensures region == MiddleThird ==> (r == Pause <==> isPlaying)
    ensures region == LeftThird ==> r == SeekTo(SeekBack(pos))
    ensures region == RightThird ==> r == SeekTo(SeekForward(pos, duration))
    ensures region == RightThird && duration > 0 ==> r.position <= duration
  {
    match region
    case LeftThird => SeekTo(SeekBack(pos))
    case RightThird => SeekTo(SeekForward(pos, if duration > 0 then duration else 0))
    case MiddleThird => if isPlaying then Pause else Play
  }

  /** A seek stays within the media: from a position inside [0, dur], both directions
      land inside [0, dur]; and a step forward undoes a step back that did not hit the
      start. */
  lemma SeekWithinMedia(pos: int, dur: int)
    requires 0 <= pos <= dur && dur > 0
    ensures 0 <= SeekBack(pos) <= pos
    ensures pos <= SeekForward(pos, dur) <= dur
    ensures pos >= SeekStepMs ==> SeekForward(SeekBack(pos), dur) == pos
  {
  }
}
