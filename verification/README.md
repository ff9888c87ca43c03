# otmena page script in Dafny

A model of the decision logic in `script.js`, the one script of a music web page.
It holds three independent page behaviours:

- **Playback coordinator.** Each `.play-btn` button names a track through its
  `data-track` attribute and toggles the audio element `audio-<track>`. A single
  `currentPlaying` reference makes starting one track pause the one that was
  playing. The `ended` and `error` events of each audio element also have handlers.
- **Theme controller.** `setTheme` applies the `dark-theme` class, stores `dark`
  or `light` under the storage key `theme`, and relabels the toggle button.
  At page load the stored value is resolved against the system colour-scheme
  preference. The toggle flips the theme.
- **Upload pre-check.** The submit handler of the upload form stops before any
  request when no file is chosen or the file is larger than 50 MiB.

Files:

- `wrappers.dfy`: `Option`, which stands for JavaScript's `null`.
- `dash_split.dfy` (module `DashSplit`): `String.prototype.split` with a
  one-character separator, `join`, and both round trips.
- `playback.dfy` (module `PlaybackCoordinator`): the player state, setup, the
  three handlers, event dispatch, and the single-track invariant.
- `theme.dfy` (module `ThemeController`).
- `upload.dfy` (module `UploadSubmitter`).

The player state is a map from track id to a `Track` plus `current`, the track
that `currentPlaying` refers to. A `Track` records its audio element's paused
flag (absent when setup found no element), its icon text and whether its button
is disabled. The function `Step` dispatches the three events the script listens
to: a click on a play button, and an audio element's `ended` and `error`.

- It delivers a click only to an enabled button that has audio.
- It delivers `ended` and `error` to any track that has audio.

`ended` can arrive on a track that is already paused. When playback reaches the
end, the HTML Living Standard's steps for reaching the end of a media resource
queue a task. That task pauses the element if it still plays and then fires `ended` in every case. A click dispatched before the task
runs may already have paused the track. `play()` and `pause()` take effect at once.

`Handlers` selects a version of the handlers:

- The button lookup of the click handler is `AsWritten` (the split on `-`) or `ById`.
- The clearing rule of the `ended` handler is `Always`, as in the script, or `IfCurrent`.

The script itself is `Handlers(AsWritten, Always)`. The inductive invariant is
`Coherent`: a track plays exactly when `currentPlaying` refers to it.

- `SingleTrackPlays` covers every sequence of clicks, `ended` and `error`
  events in which no late `ended` meets the `Always` rule. From setup, at most
  one track plays, and `currentPlaying`, when set, is that track.
- `CorrectedSingleTrackPlays` gives the same guarantee for every sequence of
  clicks, `ended` and `error` events under the `IfCurrent` rule.
- `LateEndedPlaysTwo` shows that the script's rule lets two tracks play at once.

Two behaviours of the code are easy to misread:

- The `ended` handler clears `currentPlaying` whatever it refers to, not only
  when it refers to the finished track. `EndedRulesAgree` shows the two rules
  differ exactly when `currentPlaying` refers to another track. On a coherent
  state that happens only for a late `ended`.
- The stored theme can be any string. A stored empty string is falsy in
  JavaScript and counts as no stored value. Any other stored value except `dark`
  gives the light theme and is rewritten as `light`.

## Model

| member | source | states |
|---|---|---|
| DashSplit.Split | script.js:79 | `split('-')` returns at least one piece and no piece holds the separator |
| DashSplit.JoinSplit | script.js:79 | joining the pieces of a split gives the original string back |
| DashSplit.SplitAfterPiece | script.js:65-79 | a separator-free prefix followed by `-` splits off as piece 0, so piece 1 of `audio-<id>` is piece 0 of `<id>` |
| DashSplit.SplitWithoutSeparator | script.js:79 | a string without `-` splits into itself alone |
| DashSplit.SplitJoin | script.js:79 | splitting a join gives back the pieces when none holds the separator |
| DashSplit.FirstPieceIsWhole | script.js:79 | piece 0 is the whole string exactly when it holds no separator |
| PlaybackCoordinator.SetUp | script.js:60-72 | every button gets a paused track; a button whose `audio-<track>` element is missing has no audio and is disabled; nothing is current |
| PlaybackCoordinator.StopPrevious | script.js:77-83 | the previously current track is paused and the button found from its id shows `play_arrow`; other tracks keep their playback and icons |
| PlaybackCoordinator.OnClick | script.js:74-95 | a paused track starts, shows `pause` and becomes current, after the current track is paused and its looked-up button reset; a playing track pauses, shows `play_arrow`, clears `currentPlaying`, and no other track changes |
| PlaybackCoordinator.ButtonKey | script.js:79 | the split lookup yields the part of the stopped track's id before its first `-`; the lookup by id yields the id itself |
| PlaybackCoordinator.OnEnded | script.js:98-101 | the finished track is paused and shows `play_arrow`, and other tracks are unchanged; under the script's rule `currentPlaying` is cleared unconditionally; under the corrected rule it is cleared exactly when it was unset or referred to the finished track, and is otherwise kept |
| PlaybackCoordinator.OnError | script.js:104-107 | only the track's button becomes disabled; playback, icons and `currentPlaying` are unchanged, so the reference may stay on a disabled track |
| PlaybackCoordinator.Step | script.js:63-107 | a disabled button gets no click; a button without audio gets no events; `ended` on any track with audio leaves it paused with `play_arrow` |
| PlaybackCoordinator.Run | script.js:60-108 | no event adds or removes a button |
| PlaybackCoordinator.CoherentIsSafe | script.js:61 | the invariant gives at most one playing track, and `currentPlaying` names the playing one |
| PlaybackCoordinator.InitialIsCoherent | script.js:60-72 | setup establishes the invariant |
| PlaybackCoordinator.ClickKeepsCoherent | script.js:74-95 | a click keeps the invariant, with either button lookup |
| PlaybackCoordinator.EndedKeepsCoherent | script.js:98-101 | on any track with audio, the script's `ended` keeps the invariant exactly when `currentPlaying` is unset or refers to the finished track; the corrected rule always keeps it |
| PlaybackCoordinator.EndedRulesAgree | script.js:98-101 | clearing unconditionally and clearing only the finished track's reference give the same state exactly when `currentPlaying` is unset or refers to the finished track |
| PlaybackCoordinator.ErrorKeepsCoherent | script.js:104-107 | `error` keeps the invariant |
| PlaybackCoordinator.StepKeepsCoherent | script.js:63-107 | an event keeps the invariant exactly when the handlers use the corrected rule or the event is not a late `ended` (on a paused track while another track is current) |
| PlaybackCoordinator.IfCurrentHasNoLateClear | script.js:98-101 | under the corrected rule no event sequence contains a mishandled late `ended` |
| PlaybackCoordinator.RunKeepsCoherent | script.js:60-108 | every sequence of events without a mishandled late `ended` keeps the invariant |
| PlaybackCoordinator.SingleTrackPlays | script.js:60-108 | from setup, under any events without a mishandled late `ended`, at most one track plays and `currentPlaying`, when set, is that track |
| PlaybackCoordinator.CorrectedSingleTrackPlays | script.js:60-108 | with the corrected `ended` rule, the same holds under every sequence of clicks, `ended` and `error` events |
| PlaybackCoordinator.LateEndedPlaysTwo | script.js:77-100 | with the script's rule, if `a` plays, a click on `b`, then the late `ended` of `a`, then a click on `c` leave `b` and `c` both playing |
| PlaybackCoordinator.RunKeepsDisabled | script.js:70-106 | a disabled button is never enabled again |
| PlaybackCoordinator.RunLeavesSilentTrack | script.js:68-72 | a track without audio never plays and stays disabled; with the lookup by id nothing about it changes |
| PlaybackCoordinator.SplitLookupRoundTrip | script.js:65-79 | `("audio-" + id).split('-')[1] == id` exactly when `id` holds no `-` |
| PlaybackCoordinator.InitialIconsAgree | script.js:60-72 | if no button starts with the `pause` glyph, icons agree with playback after setup |
| PlaybackCoordinator.ClickByIdKeepsIcons | script.js:74-95 | with the lookup by id, a click keeps every icon in step with its track |
| PlaybackCoordinator.StepByIdKeepsIcons | script.js:63-107 | with the lookup by id, every event keeps icons in step |
| PlaybackCoordinator.RunByIdKeepsIcons | script.js:60-108 | with the corrected handlers, every sequence of events keeps icons in step |
| PlaybackCoordinator.ClickLookupsAgree | script.js:77-82 | when the current track id holds no `-`, the split lookup makes the same click as the lookup by id |
| PlaybackCoordinator.RunLookupsAgree | script.js:60-108 | on a page whose track ids hold no `-`, the split lookup behaves like the lookup by id under every sequence of events, with either `ended` rule |
| PlaybackCoordinator.SplitLookupLeavesPauseGlyph | script.js:77-82 | tracks `a-b` (playing) and `c`: clicking `c` pauses `a-b` but leaves its `pause` glyph |
| ThemeController.SetTheme | script.js:15-31 | exactly `"dark"` selects the dark theme and anything else the light one; storage holds the shown theme; the label offers the opposite theme; a missing toggle stays missing |
| ThemeController.Init | script.js:33-43 | a truthy value already in storage wins, then a dark system preference gives dark, otherwise light; the toggle button is kept, and storage and label are settled afterwards |
| ThemeController.Toggle | script.js:46-51 | the shown theme flips and the page is settled |
| ThemeController.NonDarkIsLight | script.js:16-29 | any value other than `"dark"` acts exactly like `"light"`, including being stored as `"light"` |
| ThemeController.ToggleInvolution | script.js:47-50 | toggling twice restores a settled page |
| ThemeController.ReloadKeepsTheme | script.js:15-43 | after a reload that keeps storage, the page shows the theme last set, whatever the markup and the system preference |
| UploadSubmitter.Precheck | script.js:128-139 | no file gives `NoFile`; a size above 52428800 bytes gives `TooLarge`; otherwise `Proceed` |
| UploadSubmitter.LimitBoundary | script.js:120-139 | the limit is 52428800 bytes; exactly that size is sent, one byte more is not |
| UploadSubmitter.AcceptedSizesShrink | script.js:136 | every size smaller than an accepted one is accepted |
| UploadSubmitter.Decimal | script.js:137 | the printed limit is a non-empty string of decimal digits |
| UploadSubmitter.DecimalValue | script.js:137 | the printed digits spell out the number |
| UploadSubmitter.TooLargeMessageNamesLimit | script.js:137 | the oversize message contains "50 МБ" |
| UploadSubmitter.NoFiveNoLimit | script.js:131-142 | a text without the digit 5 cannot contain "50 МБ" |
| UploadSubmitter.Message | script.js:131-142 | exactly the oversize message names "50 МБ"; neither early return shows the uploading text; the no-file and oversize messages differ |

## Findings

| source | as written | input that shows it | evidently intended | confidence | as-written member | corrected member |
|---|---|---|---|---|---|---|
| script.js:79-82 | the button of the track being stopped is found from `currentPlaying.id.split('-')[1]` | tracks `a-b` (playing) and `c`: clicking `c` looks up the button `a`, which does not exist, so `a-b` is paused but keeps the `pause` glyph | reset the icon of the button whose track is being stopped | not executed; holds only for track ids containing `-` | PlaybackCoordinator.SplitLookupLeavesPauseGlyph | PlaybackCoordinator.RunByIdKeepsIcons |
| script.js:98-101 | the `ended` handler sets `currentPlaying = null` whichever track it refers to | `a` plays; a click on `b` runs before the queued `ended` of `a`; that `ended` clears the reference to `b`; a click on `c` then pauses nothing, so `b` and `c` both play | clear `currentPlaying` only when it refers to the finished track | not executed; needs a click between the end of playback and the dispatch of `ended` | PlaybackCoordinator.LateEndedPlaysTwo | PlaybackCoordinator.CorrectedSingleTrackPlays |

With the split lookup, a track id such as `a-b` resolves to `a`. If a button
`a` exists, its icon is reset instead, and that happens even when `a` has no
audio. `RunLeavesSilentTrack` shows that such a track still never plays and
stays disabled. The lookup by id (`Lookup.ById`) is the corrected form.
The `ended` rule `IfCurrent` is the corrected form of the second finding. The
corrected handlers `Handlers(ById, IfCurrent)` keep both the invariant and the icons.
`RunLookupsAgree` shows that the two lookups coincide on pages whose track ids
hold no `-`.

## Left out

- The upload request: `fetch`, the `FormData` body, response parsing and the success or failure message (script.js:141-168). It is asynchronous network I/O.
- The text colours of the upload message and the `console.error` diagnostics. They carry no logic.
- `localStorage`, `matchMedia`, the body's class list and the toggle button's text become fields of `ThemeController.Page` or inputs. A browser without `matchMedia` is the input `prefersDark == false`.
- `HTMLMediaElement.play()` and `pause()` are treated as instantaneous. The returned promise, autoplay blocking and a load failure that stops playback are not modelled. An `error` event changes only the button, as the handler does.
- A play or pause that does not come from the script's handlers is not an event of the model. Sources are the element's own controls, media keys, the browser's media controls, or a pause the browser makes itself. The script installs no `play` or `pause` listener, so it never sees such a change. `SingleTrackPlays` and `CorrectedSingleTrackPlays` assume none occurs. If `a` is paused by a click on `b` and a media key then resumes `a`, both play.
- The exact order of the browser's tasks is not modelled. Any event sequence is allowed, within the delivery rules of `Step`.
- The `autoplay` attribute. Setup takes every audio element to start paused.
- PlaybackCoordinator.SetUp: requires distinct `data-track` values. On a page that repeats one, two buttons would share one audio element, and a map from track id cannot express that.
- A missing `data-track` attribute, where `getAttribute` returns `null` and the script looks up `audio-null`. Track ids are plain strings in the model.
- Track ids holding `"` or `\`. These make the attribute selector of script.js:79 throw or be read with escapes. The model matches the `data-track` value by plain string equality.
- A button without an `<i>` icon child, on which the handlers would throw. Every button is taken to have one.
- Initial `disabled` state and initial icon text come from the page's markup (`Button.disabled`, `Button.icon`). `InitialIconsAgree` needs no button to start with the `pause` glyph.
