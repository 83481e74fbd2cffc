/** The logic of the experience player, lifted out of its React hooks: the track
    list, the playback state and its transitions, the resume timing of a paused
    highlight, and the rule for pushing a track's palette to the background. */
module ExperiencePlayer {
  import opened Wrappers
  import opened ResumeData
  import PaletteStore
  import Color

  /** How long each highlight is held, in milliseconds. */
  const HighlightHold: real := 5000.0
  const CoverImage: string := "/images/CognizantTrizettoQNXTCover.png"

  datatype Kind = ExperienceKind | ProjectKind

  datatype Track = Track(
    image: string,
    title: string,
    subtitle: string,
    period: string,
    highlights: seq<string>,
    technologies: seq<string>,
    kind: Kind,
    palette: Option<seq<string>>)

  function ExperienceTrack(e: Experience): Track
  {
    Track(CoverImage, e.role, e.company, e.period, e.highlights, e.technologies, ExperienceKind, e.palette)
  }

  function ProjectTrack(p: Project): Track
  {
    Track(CoverImage, p.title, p.description, "", p.highlights, p.technologies, ProjectKind, p.palette)
  }

  /** `buildTracks`: every experience in order, then every project in order. */
  function BuildTracks(exps: seq<Experience>, projs: seq<Project>): (ts: seq<Track>)
    ensures |ts| == |exps| + |projs|
    ensures forall i :: 0 <= i < |exps| ==>
      ts[i].kind == ExperienceKind && ts[i].image == CoverImage &&
      ts[i].title == exps[i].role && ts[i].subtitle == exps[i].company && ts[i].period == exps[i].period &&
      ts[i].highlights == exps[i].highlights && ts[i].technologies == exps[i].technologies &&
      ts[i].palette == exps[i].palette
    ensures forall j :: 0 <= j < |projs| ==>
      ts[|exps| + j].kind == ProjectKind && ts[|exps| + j].image == CoverImage &&
      ts[|exps| + j].title == projs[j].title && ts[|exps| + j].subtitle == projs[j].description &&
      ts[|exps| + j].period == "" &&
      ts[|exps| + j].highlights == projs[j].highlights && ts[|exps| + j].technologies == projs[j].technologies &&
      ts[|exps| + j].palette == projs[j].palette
  {
    seq(|exps|, i requires 0 <= i < |exps| => ExperienceTrack(exps[i])) +
    seq(|projs|, j requires 0 <= j < |projs| => ProjectTrack(projs[j]))
  }

  /** Every track has at least one highlight. */
  predicate AllHaveHighlights(tracks: seq<Track>)
  {
    forall i :: 0 <= i < |tracks| ==> |tracks[i].highlights| >= 1
  }

  /** The player's state: which track and highlight is current, whether playback
      runs, and the scrubber's value (a fraction of the whole track). */
  datatype Player = Player(trackIdx: nat, highlightIdx: nat, playing: bool, progress: real)

  /** The state the player mounts in: first track, first highlight, paused. */
  const Initial: Player := Player(0, 0, false, 0.0)

  /** The mount state is valid for any non-empty list of tracks with highlights,
      and it is paused until the player is seen. */
  lemma InitialIsValid(tracks: seq<Track>)
    requires AllHaveHighlights(tracks) && |tracks| > 0
    ensures Valid(tracks, Initial) && !Initial.playing && Position(tracks, Initial) == 0
  {
  }

  /** The visibility effect: coming into view starts playback; leaving it changes nothing. */
  function BecameVisible(p: Player, visible: bool): (q: Player)
    ensures visible ==> q.playing && q.(playing := p.playing) == p
    ensures !visible ==> q == p
  {
    if visible then p.(playing := true) else p
  }

  /** Once on screen the player is playing, so the hold timer is armed and fires. */
  lemma VisibleStartsTimer(tracks: seq<Track>, p: Player)
    requires p.trackIdx < |tracks|
    ensures Tick(tracks, BecameVisible(p, true), true) == TimerFired(tracks, BecameVisible(p, true))
  {
  }

  /** The indices point at an existing highlight of an existing track. */
  predicate Valid(tracks: seq<Track>, p: Player)
  {
    p.trackIdx < |tracks| && p.highlightIdx < |tracks[p.trackIdx].highlights|
  }

  /** Number of highlights in the tracks before track `t`. */
  function HighlightsBefore(tracks: seq<Track>, t: nat): nat
    requires t <= |tracks|
  {
    if t == 0 then 0 else HighlightsBefore(tracks, t - 1) + |tracks[t - 1].highlights|
  }

  /** All highlights of all tracks, played back to back. */
  function PlaylistLength(tracks: seq<Track>): nat
  {
    HighlightsBefore(tracks, |tracks|)
  }

  /** The current highlight's place in the whole playlist. */
  function Position(tracks: seq<Track>, p: Player): nat
    requires p.trackIdx < |tracks|
  {
    HighlightsBefore(tracks, p.trackIdx) + p.highlightIdx
  }

  /** What the hold timer does when it fires: the next highlight of this track, else
      the first highlight of the next track, else back to the first track; the
      scrubber restarts whenever the track changes. */
  function TimerFired(tracks: seq<Track>, p: Player): (q: Player)
    requires p.trackIdx < |tracks|
    ensures q.playing == p.playing
    ensures q.highlightIdx == 0 ==> q.progress == 0.0
    ensures q.highlightIdx != 0 ==> q.trackIdx == p.trackIdx && q.progress == p.progress
  {
    var totalHL := |tracks[p.trackIdx].highlights|;
    if p.highlightIdx < totalHL - 1 then p.(highlightIdx := p.highlightIdx + 1)
    else if p.trackIdx < |tracks| - 1 then p.(trackIdx := p.trackIdx + 1, highlightIdx := 0, progress := 0.0)
    else p.(trackIdx := 0, highlightIdx := 0, progress := 0.0)
  }

  /** The timer is only armed while the player is playing and on screen. */
  function Tick(tracks: seq<Track>, p: Player, visible: bool): (q: Player)
    requires p.trackIdx < |tracks|
    ensures !(p.playing && visible) ==> q == p
    ensures p.playing && visible ==> q == TimerFired(tracks, p)
  {
    if p.playing && visible then TimerFired(tracks, p) else p
  }

  /** The timer walks the whole playlist in order, one highlight per firing, and
      wraps from the last highlight of the last track to the very first. */
  lemma {:induction false} TimerWalksPlaylist(tracks: seq<Track>, p: Player)
    requires AllHaveHighlights(tracks) && Valid(tracks, p)
    ensures Valid(tracks, TimerFired(tracks, p))
    ensures PlaylistLength(tracks) > 0
    ensures Position(tracks, TimerFired(tracks, p)) == (Position(tracks, p) + 1) % PlaylistLength(tracks)
  {
    var t := p.trackIdx;
    HighlightsBeforeGrows(tracks, t + 1, |tracks|);
    assert Position(tracks, p) < PlaylistLength(tracks);
    StepForward(Position(tracks, p), PlaylistLength(tracks));
    if p.highlightIdx < |tracks[t].highlights| - 1 {
      assert Position(tracks, TimerFired(tracks, p)) == Position(tracks, p) + 1;
    } else if t < |tracks| - 1 {
      NextTrackStart(tracks, p);
    } else {
      assert Position(tracks, p) + 1 == PlaylistLength(tracks);
    }
  }

  /** Leaving the last highlight of a track that is not the last lands on the next
      track's first highlight, one place further in the playlist. */
  lemma NextTrackStart(tracks: seq<Track>, p: Player)
    requires AllHaveHighlights(tracks) && Valid(tracks, p)
    requires p.highlightIdx == |tracks[p.trackIdx].highlights| - 1 && p.trackIdx < |tracks| - 1
    ensures Position(tracks, TimerFired(tracks, p)) == Position(tracks, p) + 1 < PlaylistLength(tracks)
  {
    var t := p.trackIdx;
    HighlightsBeforeGrows(tracks, t + 2, |tracks|);
    assert HighlightsBefore(tracks, t + 1) == HighlightsBefore(tracks, t) + |tracks[t].highlights|;
    assert HighlightsBefore(tracks, t + 2) == HighlightsBefore(tracks, t + 1) + |tracks[t + 1].highlights|;
  }

  /** Counting highlights over more tracks never gives fewer. */
  lemma {:induction false} HighlightsBeforeGrows(tracks: seq<Track>, t: nat, u: nat)
    requires t <= u <= |tracks|
    ensures HighlightsBefore(tracks, t) <= HighlightsBefore(tracks, u)
    decreases u - t
  {
    if t < u {
      HighlightsBeforeGrows(tracks, t, u - 1);
    }
  }

  /** `goNext`: the next track, looping past the last; playback restarts at its first highlight. */
  function GoNext(trackCount: nat, p: Player): (q: Player)
    requires trackCount > 0
    ensures q.trackIdx < trackCount
    ensures q.trackIdx == (p.trackIdx + 1) % trackCount
    ensures p.trackIdx < trackCount ==> q.trackIdx == if p.trackIdx == trackCount - 1 then 0 else p.trackIdx + 1
    ensures q.highlightIdx == 0 && q.progress == 0.0 && q.playing
  {
    Player((p.trackIdx + 1) % trackCount, 0, true, 0.0)
  }

  /** `goPrev`: the previous track, looping before the first; playback restarts at its first highlight. */
  function GoPrev(trackCount: nat, p: Player): (q: Player)
    requires trackCount > 0
    ensures q.trackIdx < trackCount
    ensures q.trackIdx == (p.trackIdx - 1 + trackCount) % trackCount
    ensures p.trackIdx < trackCount ==> q.trackIdx == if p.trackIdx == 0 then trackCount - 1 else p.trackIdx - 1
    ensures q.highlightIdx == 0 && q.progress == 0.0 && q.playing
  {
    Player((p.trackIdx - 1 + trackCount) % trackCount, 0, true, 0.0)
  }

  /** Previous undoes next and next undoes previous, on any valid track index. */
  lemma PrevUndoesNext(trackCount: nat, p: Player)
    requires 0 <= p.trackIdx < trackCount
    ensures GoPrev(trackCount, GoNext(trackCount, p)).trackIdx == p.trackIdx
    ensures GoNext(trackCount, GoPrev(trackCount, p)).trackIdx == p.trackIdx
  {
    StepForward(p.trackIdx, trackCount);
    StepBack(p.trackIdx, trackCount);
    var t := p.trackIdx;
    StepForward(if t == 0 then trackCount - 1 else t - 1, trackCount);
    StepBack(if t == trackCount - 1 then 0 else t + 1, trackCount);
  }

  lemma StepForward(t: int, n: int)
    requires 0 <= t < n
    ensures (t + 1) % n == if t == n - 1 then 0 else t + 1
  {
  }

  lemma StepBack(t: int, n: int)
    requires 0 <= t < n
    ensures (t - 1 + n) % n == if t == 0 then n - 1 else t - 1
  {
  }

  /** Next from the last track loops to the first, and previous from the first to the last. */
  lemma NavigationLoops(trackCount: nat, p: Player)
    requires trackCount > 0
    ensures p.trackIdx == trackCount - 1 ==> GoNext(trackCount, p).trackIdx == 0
    ensures p.trackIdx == 0 ==> GoPrev(trackCount, p).trackIdx == trackCount - 1
  {
  }

  /** Navigation keeps the state valid when every track has a highlight. */
  lemma NavigationKeepsValid(tracks: seq<Track>, p: Player)
    requires AllHaveHighlights(tracks) && |tracks| > 0
    ensures Valid(tracks, GoNext(|tracks|, p)) && Valid(tracks, GoPrev(|tracks|, p))
  {
  }

  /** `togglePlay`: flips playing and nothing else. */
  function TogglePlay(p: Player): (q: Player)
    ensures q.playing != p.playing
    ensures q.(playing := p.playing) == p
  {
    p.(playing := !p.playing)
  }

  /** Toggling twice is the identity. */
  lemma TogglePlayInvolution(p: Player)
    ensures TogglePlay(TogglePlay(p)) == p
  {
  }

  /** `jumpToHighlight`: the chosen highlight of the current track, with the scrubber
      at that highlight's start, playing. */
  function JumpToHighlight(totalHL: nat, p: Player, idx: nat): (q: Player)
    requires totalHL > 0
    ensures q.trackIdx == p.trackIdx && q.highlightIdx == idx && q.playing
    ensures q.progress == HighlightStart(idx, totalHL)
    ensures idx < totalHL ==> 0.0 <= q.progress < 1.0
  {
    Player(p.trackIdx, idx, true, idx as real / totalHL as real)
  }

  /** Where highlight `h` of `totalHL` begins on the scrubber. */
  function HighlightStart(h: nat, totalHL: nat): real
    requires totalHL > 0
  {
    h as real / totalHL as real
  }

  /** How far into highlight `h` the scrubber is, as a fraction of the highlight,
      clamped to [0, 1]. */
  function ResumeFraction(currentVal: real, h: nat, totalHL: nat): (f: real)
    requires totalHL > 0
    ensures 0.0 <= f <= 1.0
    ensures currentVal <= HighlightStart(h, totalHL) ==> f == 0.0
    ensures currentVal >= HighlightStart(h + 1, totalHL) ==> f == 1.0
    ensures HighlightStart(h, totalHL) <= currentVal <= HighlightStart(h + 1, totalHL) ==>
      f == (currentVal - HighlightStart(h, totalHL)) * totalHL as real
  {
    var startOfHL := h as real / totalHL as real;
    var span := 1.0 / totalHL as real;
    var raw := (currentVal - startOfHL) / span;
    assert raw == (currentVal - startOfHL) * totalHL as real;
    assert HighlightStart(h + 1, totalHL) == startOfHL + span;
    if raw < 1.0 then (if raw > 0.0 then raw else 0.0) else 1.0
  }

  /** Milliseconds the timer waits before advancing: what is left of the hold. */
  function RemainingMs(currentVal: real, h: nat, totalHL: nat): (ms: real)
    requires totalHL > 0
    ensures 0.0 <= ms <= HighlightHold
    ensures currentVal <= HighlightStart(h, totalHL) ==> ms == HighlightHold
    ensures currentVal >= HighlightStart(h + 1, totalHL) ==> ms == 0.0
    ensures HighlightStart(h, totalHL) <= currentVal <= HighlightStart(h + 1, totalHL) ==>
      ms == HighlightHold * (HighlightStart(h + 1, totalHL) - currentVal) * totalHL as real
  {
    HighlightHold * (1.0 - ResumeFraction(currentVal, h, totalHL))
  }

  /** While the timer waits, the scrubber animation runs to the end of the current
      highlight; this is where it stands when the timer fires. */
  function HoldCompleted(tracks: seq<Track>, p: Player): (q: Player)
    requires p.trackIdx < |tracks| && |tracks[p.trackIdx].highlights| > 0
    ensures q.(progress := p.progress) == p
    ensures q.progress == HighlightStart(p.highlightIdx + 1, |tracks[p.trackIdx].highlights|)
    ensures RemainingMs(q.progress, q.highlightIdx, |tracks[q.trackIdx].highlights|) == 0.0
  {
    p.(progress := HighlightStart(p.highlightIdx + 1, |tracks[p.trackIdx].highlights|))
  }

  /** Every highlight the timer moves to, in the same track or the next, starts
      with the scrubber at its beginning and so is held for the full five seconds. */
  lemma TimerGivesFullHold(tracks: seq<Track>, p: Player)
    requires AllHaveHighlights(tracks) && Valid(tracks, p)
    ensures Valid(tracks, TimerFired(tracks, HoldCompleted(tracks, p)))
    ensures var q := TimerFired(tracks, HoldCompleted(tracks, p));
      RemainingMs(q.progress, q.highlightIdx, |tracks[q.trackIdx].highlights|) == HighlightHold
  {
    TimerWalksPlaylist(tracks, HoldCompleted(tracks, p));
  }

  /** A highlight jumped to is held for the full five seconds. */
  lemma JumpHoldsFullHighlight(totalHL: nat, p: Player, idx: nat)
    requires totalHL > 0
    ensures var q := JumpToHighlight(totalHL, p, idx);
      RemainingMs(q.progress, q.highlightIdx, totalHL) == HighlightHold
  {
  }

  /** The scrubber bar's width in percent. */
  function ScrubberWidth(v: real): (w: real)
    ensures w <= 100.0
    ensures v >= 0.0 ==> w >= 0.0
    ensures v >= 1.0 ==> w == 100.0
    ensures v <= 1.0 ==> w == v * 100.0
  {
    (if v < 1.0 then v else 1.0) * 100.0
  }

  /** The palette effect: a visible player with a non-empty track palette pushes it;
      a hidden player resets the background; otherwise nothing is called. */
  function PalettePush(visible: bool, palette: Option<seq<string>>): (r: Option<PaletteStore.Op>)
    ensures (r.Some? && r.value.SetPalette?) <==> visible && palette.Some? && |palette.value| > 0
    ensures r.Some? && r.value.SetPalette? ==> r.value.colors == palette.value
    ensures r == Some(PaletteStore.ResetPalette) <==> !visible
    ensures r.None? <==> visible && (palette.None? || |palette.value| == 0)
  {
    if visible && palette.Some? && |palette.value| > 0 then Some(PaletteStore.SetPalette(palette.value))
    else if !visible then Some(PaletteStore.ResetPalette)
    else None
  }

  /** The background palette the effect leaves behind. */
  lemma PalettePushEffect(ctx: PaletteStore.Context, visible: bool, palette: Option<seq<string>>, dflt: seq<string>)
    requires ctx.Provided?
    ensures var after := match PalettePush(visible, palette)
        case Some(op) => PaletteStore.Apply(ctx, op, dflt)
        case None => ctx;
      && (visible && palette.Some? && |palette.value| > 0 ==> PaletteStore.Current(after, dflt) == palette.value)
      && (!visible ==> PaletteStore.Current(after, dflt) == dflt)
      && (visible && (palette.None? || |palette.value| == 0) ==> after == ctx)
  {
  }

  /** The player's tracks, built from the transcribed records. */
  function Tracks(): seq<Track>
  {
    BuildTracks(Experiences, Projects)
  }

  /** The real track list has three tracks, each with highlights and each with a
      non-empty palette of hex colours, so every state the player reaches is valid
      and every palette it pushes can retarget the ribbons. */
  lemma TracksAreWellFormed()
    ensures |Tracks()| == 3
    ensures AllHaveHighlights(Tracks())
    ensures forall i :: 0 <= i < |Tracks()| ==>
      Tracks()[i].palette.Some? && |Tracks()[i].palette.value| > 0 &&
      PaletteStore.AllHex(Tracks()[i].palette.value)
  {
    var ts := Tracks();
    assert ts[0].highlights == SoftwareEngineerHighlights && ts[0].palette == Some(SoftwareEngineerPalette);
    assert ts[1].highlights == SoftwareEngineerInternHighlights && ts[1].palette == Some(SoftwareEngineerInternPalette);
    assert ts[2].highlights == BrainReportHighlights && ts[2].palette == Some(BrainReportPalette);
    RecordsAreWellFormed();
  }

  /** Each transcribed record has highlights and a palette of four hex colours. */
  lemma RecordsAreWellFormed()
    ensures |SoftwareEngineerHighlights| == 9 && |SoftwareEngineerInternHighlights| == 4 && |BrainReportHighlights| == 9
    ensures |SoftwareEngineerPalette| == 4 && PaletteStore.AllHex(SoftwareEngineerPalette)
    ensures |SoftwareEngineerInternPalette| == 4 && PaletteStore.AllHex(SoftwareEngineerInternPalette)
    ensures |BrainReportPalette| == 4 && PaletteStore.AllHex(BrainReportPalette)
  {
    HighlightCounts();
    SoftwareEngineerPaletteIsHex();
    SoftwareEngineerInternPaletteIsHex();
    BrainReportPaletteIsHex();
  }

  lemma HighlightCounts()
    ensures |SoftwareEngineerHighlights| == 9 && |SoftwareEngineerInternHighlights| == 4 && |BrainReportHighlights| == 9
  {
  }

  lemma SoftwareEngineerPaletteIsHex()
    ensures |SoftwareEngineerPalette| == 4 && PaletteStore.AllHex(SoftwareEngineerPalette)
  {
  }

  lemma SoftwareEngineerInternPaletteIsHex()
    ensures |SoftwareEngineerInternPalette| == 4 && PaletteStore.AllHex(SoftwareEngineerInternPalette)
  {
  }

  lemma BrainReportPaletteIsHex()
    ensures |BrainReportPalette| == 4 && PaletteStore.AllHex(BrainReportPalette)
  {
  }
}
