# Palette, player and markup logic of a portfolio site

The site is a Next.js portfolio. Almost all of it is JSX. Four pieces hold logic
that can be stated and proved, and this project models those four in Dafny:

- **The background palette context** (`PaletteStore`). A provider holds the
  current palette. `setPalette` stores a non-empty list as given and falls back
  to the default palette for an empty one. `resetPalette` restores the default.
  Outside a provider, the context shows the default and both operations do
  nothing.
- **The colour pipeline of the animated background** (`Color`, `Ribbons`):
  - the `#rrggbb` codec `hexToRGB` / `rgbToHex`;
  - the colour interpolation `lerpRGB` and the Rec. 601 luminance cap
    `clampLuminance`;
  - the palette assignment when the 11 ribbons are created;
  - the palette effect that retargets every ribbon to `palette[i mod n]`;
  - the per-frame step. It eases each ribbon 1.5% of the way to its target,
    paints the luminance-capped colour, eases the pointer influence 4% toward the
    pointer state, and reveals the canvas on the third frame.

  The palette effect runs once at mount, before the ribbons exist. At that point
  it does nothing, and the ribbons take their colours from the default palette.
- **The experience player** (`ExperiencePlayer`, `TimeFormat`, `DominantColor`).
  These are the pure transitions behind the React hooks:
  - the track list;
  - the hold timer, which advances highlight by highlight and track by track,
    wrapping at the end;
  - next, previous, play/pause and jump-to-highlight;
  - the resume fraction of a paused highlight and the scrubber width;
  - the rule that pushes a track's palette to the background or resets it;
  - the `m:ss` clock labels;
  - the averaging loop that takes the dominant colour of the cover thumbnail.
- **The bold-markup tokenizer** (`BoldMarkup`). `formatMarkdownBold` is
  `text.split(/(\*\*.*?\*\*)/).filter(Boolean)`. The split follows the
  RegExp.prototype[@@split] algorithm of section 22.2.6.14 of ECMA-262. The
  pattern is tried at each position in turn and matches lazily: two stars, the
  fewest characters other than line terminators, then two stars. The player's
  `renderHighlight` uses the same split without the filter.

Arithmetic that JavaScript does on doubles is modelled on Dafny's exact `real`.
Integer-valued results (`Math.round`, `toString(radix)`, `parseInt`) are
modelled on unbounded `int`. The module `JsNumber` holds the few JavaScript
number and string functions the model uses. `ResumeData` transcribes the three
experience and project records the player is built from. These records establish
two facts: every track has highlights, and every palette is hex.

## Model

| member | source | states |
|---|---|---|
| PaletteStore.Mount | lib/background-palette-context.tsx:19 | a freshly mounted provider shows the default palette |
| PaletteStore.Set | lib/background-palette-context.tsx:21-23 | a non-empty list is stored exactly; an empty one stores the default; outside a provider nothing changes |
| PaletteStore.Reset | lib/background-palette-context.tsx:25-27 | the provider's palette becomes the default; outside a provider nothing changes |
| PaletteStore.ResetIdempotent | lib/background-palette-context.tsx:25-27 | resetting twice has the same effect as resetting once |
| PaletteStore.SetEmptyIsReset | lib/background-palette-context.tsx:21-27 | `setPalette([])` and `resetPalette()` have identical effects |
| PaletteStore.LastOperationWins | lib/background-palette-context.tsx:19-27 | after any history, the palette is what the last operation gives: a non-empty set list exactly, otherwise the default |
| PaletteStore.RunIsProvided | lib/background-palette-context.tsx:12-16 | operations never turn a provider into the bare context or back; outside a provider every sequence is a no-op |
| PaletteStore.OutsideShowsDefault | lib/background-palette-context.tsx:12-16 | without a provider the context shows the default palette whatever is invoked |
| PaletteStore.RunAppend | lib/background-palette-context.tsx:19-27 | running two histories in turn equals running their concatenation |
| PaletteStore.RunKeepsNonEmpty | lib/background-palette-context.tsx:19-27 | with a non-empty default, the palette is non-empty after any sequence of operations |
| PaletteStore.RunKeepsHex | lib/background-palette-context.tsx:21-27 | if the default and every list ever set are hex colours, the palette only ever holds hex colours |
| JsNumber.Round | components/AnimatedBackground.tsx:52 | `Math.round` gives the integer within half of its argument, with ties going up |
| JsNumber.Digits | components/AnimatedBackground.tsx:52 | `toString(radix)` of a natural number is a non-empty string of lower-case digits of that radix, starting with `0` only for zero itself |
| JsNumber.ToRadixString | components/ExperiencePlayer.tsx:83-84 | a non-negative number is written with lower-case digits of the radix only; a negative one starts with `-` |
| JsNumber.ToRadixStringValue | components/ExperiencePlayer.tsx:83-84 | the string spells its number: its digits read back as `n`, after a `-` when `n` is negative |
| JsNumber.PadStart | components/AnimatedBackground.tsx:52 | `padStart` keeps the string as the suffix and fills only on the left, up to the requested length |
| JsNumber.DigitsValueOfDigits | components/AnimatedBackground.tsx:45-52 | reading back the digits `toString(radix)` writes gives the number written |
| Color.ParseHexPair | components/AnimatedBackground.tsx:45-47 | `parseInt` of two hex digits is 16 times the first digit plus the second, below 256 |
| Color.HexToRGB | components/AnimatedBackground.tsx:42-49 | for `#` and six hex digits in either case, the channels are bytes read from digit pairs 1-2, 3-4 and 5-6 |
| Color.RgbToHex | components/AnimatedBackground.tsx:51-54 | for channels in [0, 255], the output is `#` followed by each channel rounded half-up and written as two hex digits |
| Color.ChannelHexOfByte | components/AnimatedBackground.tsx:52 | a channel in [0, 255] prints as exactly two lower-case hex digits whose value is the rounded channel |
| Color.RgbToHexIsLowerHex | components/AnimatedBackground.tsx:51-54 | for channels in [0, 255], the output is `#` and exactly six lower-case hex digits |
| Color.HexToRgbOfRgbToHex | components/AnimatedBackground.tsx:42-54 | decoding the encoding of an in-range colour gives the colour with each channel rounded |
| Color.ByteColorRoundTrip | components/AnimatedBackground.tsx:42-54 | `hexToRGB(rgbToHex(c)) == c` for integer channels in 0..255 |
| Color.RgbToHexOfHexToRgb | components/AnimatedBackground.tsx:42-54 | `rgbToHex(hexToRGB(h))` is `h` lower-cased, for every well-formed `h` |
| Color.ToLower | components/AnimatedBackground.tsx:52 | lower-casing keeps every digit value, removes upper case and leaves every other character alone |
| Color.CappedColorPrints | components/AnimatedBackground.tsx:51-71 | a capped in-range colour prints as lower-case hex that decodes to the capped colour rounded |
| Color.Lerp | components/AnimatedBackground.tsx:56-62 | `a` at t=0, `b` at t=1; for t in [0,1] each channel lies between `a` and `b`, and the gap to `b` is exactly (1-t) times the old gap |
| Color.ClampLuminance | components/AnimatedBackground.tsx:64-71 | identity when the luma is at most the cap; otherwise all channels are scaled by cap/luma, so the luma equals the cap exactly; never above the cap; in-range colours stay in range |
| Color.ScaledToCap | components/AnimatedBackground.tsx:69-70 | scaling by cap over luma gives luma exactly equal to the cap |
| Color.RoundedLuma | components/AnimatedBackground.tsx:51-54 | rounding the channels to bytes moves the luma by at most half a unit |
| Ribbons.ReferenceSize | components/AnimatedBackground.tsx:257-258 | the reference field is the window size, but at least 2560 by 1440 |
| Ribbons.CreateRibbon | components/AnimatedBackground.tsx:155-172 | ribbon `i` gets colour `PALETTE[i mod n]` with current and target both the decoded colour |
| Ribbons.CreateField | components/AnimatedBackground.tsx:256-261 | exactly 11 ribbons, ribbon `i` coloured from entry `i mod n`, starting at their targets |
| Ribbons.Start | components/AnimatedBackground.tsx:247-261 | at mount there are 11 ribbons; ribbon `i` keeps its drawn shape and has current and target colour both `hexToRGB(palette[i mod n])`; time and frame count are zero, the canvas is hidden, influence is zero and every colour is in range |
| Ribbons.Retarget | components/AnimatedBackground.tsx:236-245 | each ribbon's target becomes `hexToRGB(palette[i mod n])`; no other ribbon field changes; with no ribbons nothing happens |
| Ribbons.RetargetLastWins | components/AnimatedBackground.tsx:236-245 | two palette changes in a row have the effect of the second alone |
| Ribbons.RetargetKeepsInRange | components/AnimatedBackground.tsx:241-244 | retargeting keeps every ribbon's colours within [0, 255] |
| Ribbons.ColorStep | components/AnimatedBackground.tsx:297-301 | the colour gap shrinks by exactly 1.5%, never overshooting the target; shape and target are unchanged |
| Ribbons.EaseStep | components/AnimatedBackground.tsx:298-299 | one easing step leaves each channel between the old colour and the target and shrinks the gap by the factor 0.985 |
| Ribbons.ColorStepPaints | components/AnimatedBackground.tsx:298-301 | the painted colour is lower-case hex that decodes to the capped colour rounded; the capped colour's luma is at most 150, and the painted bytes' luma at most 150.5 |
| Ribbons.InfluenceStep | components/AnimatedBackground.tsx:303-304 | the influence moves 4% of the way to the pointer target, never away from it or past it, and stays in [0, 1] |
| Ribbons.Frame | components/AnimatedBackground.tsx:287-304 | one frame steps every ribbon's colour and the influence, counts the frame, and reveals the canvas on frame 3 |
| Ribbons.FramesShrinkGap | components/AnimatedBackground.tsx:285-301 | after k frames each ribbon's colour gap is exactly 0.985^k times the original; shapes and targets are unchanged |
| Ribbons.FramesKeepInRange | components/AnimatedBackground.tsx:298-301 | colours in range stay in range frame after frame |
| Ribbons.FramesKeepInfluence | components/AnimatedBackground.tsx:303-304 | the pointer influence never leaves [0, 1] |
| Ribbons.RevealedFromThirdFrame | components/AnimatedBackground.tsx:288-295 | counting from mount, the canvas is visible exactly from the third frame on |
| Ribbons.StaysRevealed | components/AnimatedBackground.tsx:293-295 | once revealed, the canvas stays revealed |
| ExperiencePlayer.BuildTracks | components/ExperiencePlayer.tsx:42-64 | all experiences in order, then all projects in order; project tracks have period `''` and kind project; palettes, highlights and technologies copied unchanged |
| ExperiencePlayer.TracksAreWellFormed | lib/resume-data.ts:59-121 | the real track list has three tracks, each with highlights and a non-empty palette of hex colours |
| ExperiencePlayer.TimerFired | components/ExperiencePlayer.tsx:209-213 | playing state is unchanged; the scrubber is reset exactly when a new track starts |
| ExperiencePlayer.InitialIsValid | components/ExperiencePlayer.tsx:125-127 | the player mounts on the first highlight of the first track, paused, a valid state |
| ExperiencePlayer.BecameVisible | components/ExperiencePlayer.tsx:170 | coming into view starts playback and changes nothing else; leaving view changes nothing |
| ExperiencePlayer.VisibleStartsTimer | components/ExperiencePlayer.tsx:170-213 | once the player has come into view, the hold timer is armed and fires |
| ExperiencePlayer.Tick | components/ExperiencePlayer.tsx:198-213 | nothing happens unless the player is playing and visible; when it is, the hold timer fires |
| ExperiencePlayer.TimerWalksPlaylist | components/ExperiencePlayer.tsx:209-213 | if every track has a highlight, indices stay valid and the timer moves one place through the whole playlist, wrapping from the last highlight to the first |
| ExperiencePlayer.NextTrackStart | components/ExperiencePlayer.tsx:211 | leaving a track's last highlight moves to the next track's first highlight, one place further |
| ExperiencePlayer.HighlightsBeforeGrows | components/ExperiencePlayer.tsx:209-213 | highlights counted over more tracks are never fewer |
| ExperiencePlayer.GoNext | components/ExperiencePlayer.tsx:229-232 | the track becomes the one after the current, the first after the last; highlight and progress are reset, and playback starts |
| ExperiencePlayer.GoPrev | components/ExperiencePlayer.tsx:233-236 | the track becomes the one before the current, the last before the first; highlight and progress are reset, and playback starts |
| ExperiencePlayer.PrevUndoesNext | components/ExperiencePlayer.tsx:229-236 | previous after next, and next after previous, return to the same track |
| ExperiencePlayer.NavigationLoops | components/ExperiencePlayer.tsx:229-236 | next from the last track gives the first, and previous from the first gives the last |
| ExperiencePlayer.NavigationKeepsValid | components/ExperiencePlayer.tsx:229-236 | navigation keeps the player state valid |
| ExperiencePlayer.StepForward | components/ExperiencePlayer.tsx:230 | `(t+1) mod n` is `t+1`, or 0 past the end |
| ExperiencePlayer.StepBack | components/ExperiencePlayer.tsx:234 | `(t-1+n) mod n` is `t-1`, or `n-1` before the start |
| ExperiencePlayer.TogglePlay | components/ExperiencePlayer.tsx:237 | playing is negated and nothing else changes |
| ExperiencePlayer.TogglePlayInvolution | components/ExperiencePlayer.tsx:237 | two toggles give back the same state |
| ExperiencePlayer.JumpToHighlight | components/ExperiencePlayer.tsx:238-240 | the highlight becomes `i`, progress becomes i/totalHL (in [0,1) for a real highlight), and playback starts |
| ExperiencePlayer.ResumeFraction | components/ExperiencePlayer.tsx:199-203 | the fraction is clamped to [0,1]: 0 at or before the highlight's start, 1 at or after its end, linear in between |
| ExperiencePlayer.RemainingMs | components/ExperiencePlayer.tsx:199-204 | the wait lies in [0, 5000]: the full 5000 at the highlight's start, 0 at its end, and in between 5000 times the part of the highlight still ahead of the scrubber |
| ExperiencePlayer.HoldCompleted | components/ExperiencePlayer.tsx:207 | the scrubber animation ends exactly at the end of the current highlight, with no time left to wait; nothing else changes |
| ExperiencePlayer.TimerGivesFullHold | components/ExperiencePlayer.tsx:207-213 | every highlight the timer moves to is held for the full 5000 ms |
| ExperiencePlayer.JumpHoldsFullHighlight | components/ExperiencePlayer.tsx:238-240 | a highlight jumped to is held for the full 5000 ms |
| ExperiencePlayer.ScrubberWidth | components/ExperiencePlayer.tsx:146 | `min(v,1)*100` never exceeds 100, is 100 from v=1 on, and is non-negative for non-negative v |
| ExperiencePlayer.PalettePush | components/ExperiencePlayer.tsx:149-155 | a visible player with a non-empty palette sets exactly that palette; a hidden one resets; a visible one without a palette calls nothing |
| ExperiencePlayer.PalettePushEffect | components/ExperiencePlayer.tsx:149-155 | visible with a non-empty palette shows that palette; hidden shows the default; visible with no or an empty palette leaves the context untouched |
| TimeFormat.ShownSeconds | components/ExperiencePlayer.tsx:83 | the shown seconds are the nearest integer, or 0 for anything under half a second |
| TimeFormat.Fmt | components/ExperiencePlayer.tsx:82-85 | every label is a clock label, and it reads back as the seconds shown |
| TimeFormat.ClockTextParses | components/ExperiencePlayer.tsx:82-85 | the label for `n` whole seconds is a clock label that reads back as `n` |
| TimeFormat.ClockTextShape | components/ExperiencePlayer.tsx:82-85 | the label is the minutes in decimal, a colon, and the tens and units digits of the seconds within the minute |
| TimeFormat.LabelParses | components/ExperiencePlayer.tsx:82-85 | unpadded minutes, a colon and two digits of seconds under 60 form a clock label worth 60 times the minutes plus the seconds |
| TimeFormat.PaddedSeconds | components/ExperiencePlayer.tsx:84 | the padded seconds field is the tens digit followed by the units digit |
| TimeFormat.ParseClock | components/ExperiencePlayer.tsx:82-85 | a label is read back exactly when it is unpadded minutes, a colon and two digits from `00` to `59` |
| TimeFormat.FmtRoundTrip | components/ExperiencePlayer.tsx:82-85 | every label is the minutes in decimal without padding, a colon, and the two digits of the seconds within the minute; reading it back gives max(0, round(s)) |
| TimeFormat.TwoDigits | components/ExperiencePlayer.tsx:84 | the seconds field is exactly two digits, tens then units, of the seconds within the minute |
| TimeFormat.FmtUnderHalfSecond | components/ExperiencePlayer.tsx:82-85 | every time under half a second, negative ones included, shows as `0:00` |
| TimeFormat.NotClocks | components/ExperiencePlayer.tsx:82-85 | `0:75` and `01:15` are not labels: seconds stop at 59 and minutes are not padded |
| TimeFormat.FmtExamples | components/ExperiencePlayer.tsx:82-85 | 61 s shows as `1:01`, and 3599.6 s as `60:00`: minutes do not wrap at an hour |
| DominantColor.TallyBounds | components/ExperiencePlayer.tsx:105-109 | each channel sum is at most 255 per counted pixel, and the three sums together lie strictly between 90 and 690 per counted pixel |
| DominantColor.MeanIsByte | components/ExperiencePlayer.tsx:110 | the rounded mean of byte values is a byte |
| DominantColor.Sample | components/ExperiencePlayer.tsx:91-110 | the loop computes the rounded mean over every 16th byte of the pixels with 90 < r+g+b < 690; the result is a byte colour; with nothing counted, the previous colour stays |
| DominantColor.SampleExamples | components/ExperiencePlayer.tsx:104-110 | a mid-grey thumbnail gives that grey; a black one keeps the initial (140, 70, 40) |
| BoldMarkup.CloseFrom | lib/utils.ts:9 | the lazy `.*?` stops at the first `**` reached without a line terminator; none is found only when no such `**` exists |
| BoldMarkup.MatchAt | lib/utils.ts:9 | the match tried at a position is a real match and the shortest one there; none is found only when no match starts there |
| BoldMarkup.NonEmpty | lib/utils.ts:9 | `filter(Boolean)` leaves no empty string, and exactly the non-empty parts remain |
| BoldMarkup.Split | lib/utils.ts:9 | the regex split: its parts join back into the text, there is an odd number of them, and every odd-numbered part is a bold run |
| BoldMarkup.FormatMarkdownBold | lib/utils.ts:8-10 | the parts join back into the text; none is empty; the empty text gives none |
| BoldMarkup.SplitFromConcat | lib/utils.ts:9 | the split parts joined give back the text |
| BoldMarkup.NonEmptyConcat | lib/utils.ts:9 | dropping empty parts does not change the joined text |
| BoldMarkup.NonEmptyAppend | lib/utils.ts:9 | the filter works part by part: filtering a concatenation is concatenating the filtered halves |
| BoldMarkup.NonEmptySingleton | lib/utils.ts:9 | a single part is kept unchanged exactly when it is non-empty |
| BoldMarkup.FormatMarkdownBoldKeepsText | lib/utils.ts:8-10 | the parts join back into the text exactly; no part is empty; the empty text gives no parts |
| BoldMarkup.MatchIsBoldPart | lib/utils.ts:9 | a shortest match, cut out, is a bold part |
| BoldMarkup.SplitFromShape | lib/utils.ts:9 | the split from any scan state alternates plain and matched parts, and every matched part is a bold part |
| BoldMarkup.SplitMatchedParts | lib/utils.ts:9 | every matched part starts and ends with `**`, is at least 4 long, has no line terminator, and holds no `**` between its delimiters |
| BoldMarkup.NoStarsIsOnePart | lib/utils.ts:9 | text without `**` is one part, and non-empty text without `**` gives `[text]` |
| BoldMarkup.SplitFromTokenizes | lib/utils.ts:9 | the split loop produces a leftmost, lazy tokenization |
| BoldMarkup.PlainRunSplit | lib/utils.ts:9 | with no match left, the split ends in one plain part |
| BoldMarkup.SkipToMatch | lib/utils.ts:9 | the split cuts at the first match from the scan position |
| BoldMarkup.TokenizesOnlyAsSplit | lib/utils.ts:9 | any leftmost, lazy tokenization is the split |
| BoldMarkup.SplitIsTheLeftmostLazyTokenization | lib/utils.ts:9 | a list of parts is the split exactly when it tokenizes the text leftmost and lazily |
| BoldMarkup.UnclosedStarsStayPlain | lib/utils.ts:9 | `"a**b"` gives `["a**b"]` |
| BoldMarkup.TwoBoldRunsSplitApart | lib/utils.ts:9 | `"**a** and **b**"` gives `["**a**", " and ", "**b**"]` |
| BoldMarkup.SliceInner | components/ExperiencePlayer.tsx:74 | `slice(2, -2)` drops two characters at each end, or gives `""` for strings shorter than 4 |
| BoldMarkup.RenderAsWritten | components/ExperiencePlayer.tsx:69-79 | one segment per split part, bold exactly when the part starts and ends with `**`; a plain part keeps its text; a bold part of 4 or more characters shows its inside, a shorter one shows nothing |
| BoldMarkup.RenderAsWrittenLosesText | components/ExperiencePlayer.tsx:69-79 | as written, `"***"` renders as an empty bold run, so its text is lost |
| BoldMarkup.RenderHighlight | components/ExperiencePlayer.tsx:69-79 | the corrected rendering has one segment per split part, bold exactly at the odd (matched) positions, a plain segment keeping its part's text |
| BoldMarkup.RestoreParts | components/ExperiencePlayer.tsx:69-79 | segments that each stand for their part join back into the parts' text |
| BoldMarkup.RenderHighlightRestores | components/ExperiencePlayer.tsx:69-79 | corrected, each segment's markup is its own split part, so the bold segments are exactly the matched runs, and the segments give back the text |
| BoldMarkup.RenderingsAgreeExceptStarredPlainText | components/ExperiencePlayer.tsx:69-79 | the two renderings differ only on plain parts that both start and end with `**` |

## Left out

- The default `PALETTE` comes from `lib/palette`, which is not part of this model.
  It is the parameter `dflt` wherever the code falls back to it.
- Color.HexToRGB: requires a well-formed `#rrggbb` string. Other input is outside
  the model: `parseInt` stops at the first character that is not a digit, so
  the code may give a partial value or `NaN`, and a `real` cannot represent NaN.
  Every palette that can reach the function is proved hex: see
  `PaletteStore.RunKeepsHex` and `ExperiencePlayer.TracksAreWellFormed`.
- Color.ClampLuminance: requires a non-negative cap. The code only uses the
  default 150.
- Ribbons.Retarget: requires a usable palette once ribbons exist. With an empty
  palette the code would index `palette[NaN]` and throw inside
  `hexToRGB(undefined)`. `PaletteStore.RunKeepsNonEmpty` shows that the store
  never hands out an empty palette when the default is non-empty.
- Ribbons.CreateRibbon: only the colour assignment is modelled. Positions, waves,
  widths, opacity, noise seed and drift are drawn with `Math.random`. They are
  inputs, carried unchanged in `Shape`.
- Canvas drawing is not modelled: ribbon geometry, noise, pointer push, blur,
  blending and the vignette. It is floating-point trigonometry with no
  statable contract.
- `requestAnimationFrame`, `setTimeout`, event listeners and React effects are
  not modelled. Their order is a sequence of calls to the modelled transitions:
  `Frames` takes one pointer state per frame, and `PaletteStore.Run` takes a list
  of operations.
- The scrubber animation (framer-motion `animate`) is not modelled as time
  passing. `HoldCompleted` models only where it ends when the timer fires. So
  TimerFired keeps the progress value unchanged in the next-highlight branch, as
  the code does. A pause in the middle of a highlight is host behaviour.
- Lyrics scrolling and container measuring are not modelled. They are
  presentational.
- Image loading and `getImageData` in `useDominantColor` are not modelled. The
  byte array is an input to `DominantColor.Sample`.
- `cn` in `lib/utils.ts` is not modelled. It is a wrapper over two libraries.
- IEEE-754 rounding is not modelled. `real` is exact, so the proved equalities,
  such as the luma landing exactly on the cap, hold only in exact arithmetic.
- TimeFormat.Fmt: in JavaScript, `Math.max(0, Math.round(s))` with a negative
  zero yields 0. The model's integers have no negative zero, so the two agree.

## Findings

| source | as written | input that shows it | evidently intended | confidence | as-written member | corrected member |
|---|---|---|---|---|---|---|
| components/ExperiencePlayer.tsx:69-79 | a part is shown bold when it starts and ends with `**`, whether or not the pattern matched it | the highlight `"***"`: it holds no match, so it is one plain part, but it renders as an empty bold run and the three stars disappear | only the runs the pattern matched (the odd-numbered split parts) are bold, and no text is lost | not executed; follows from the split semantics, high | BoldMarkup.RenderAsWrittenLosesText | BoldMarkup.RenderHighlightRestores |

The same test is applied to the output of `formatMarkdownBold` on the experience
page. There the filter removes the parity that tells matched runs from plain
text, so the corrected rendering works on the unfiltered split.
