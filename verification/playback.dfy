/**
 The play buttons of script.js: each button names a track by its `data-track`
 attribute, finds the audio element `audio-<track>`, and toggles it; a single
 `currentPlaying` reference keeps at most one track playing. Playback commands
 take effect at once, and the browser's event dispatch is an explicit `Event`.
 */
module PlaybackCoordinator {
  import opened Wrappers
  import DashSplit

  type TrackId = string

  /** Glyphs the handlers write into a button's icon. */
  const PlayGlyph := "play_arrow"
  const PauseGlyph := "pause"

  /** Prefix of every audio element id; `audio-<track>` is looked up at setup. */
  const AudioPrefix := "audio-"

  function AudioId(t: TrackId): string
  {
    AudioPrefix + t
  }

  /** The `paused` flag of an audio element. */
  datatype Status = Paused | Playing

  /** One play button: its audio element (absent when setup found none), its icon text, and whether it is disabled. */
  datatype Track = Track(audio: Option<Status>, icon: string, disabled: bool)
  {
    predicate IsPlaying() { audio == Some(Playing) }
  }

  /** All play buttons by track id, and the track `currentPlaying` refers to. */
  datatype Player = Player(tracks: map<TrackId, Track>, current: Option<TrackId>)

  /** A `.play-btn` element as the page's markup gives it. */
  datatype Button = Button(track: TrackId, icon: string, disabled: bool)

  /** The events the browser dispatches to the handlers. */
  datatype Event = Click(track: TrackId) | Ended(track: TrackId) | Error(track: TrackId)

  /** How the click handler finds the button of the track it stops:
      `AsWritten` splits the audio id on `-` and takes piece 1;
      `ById` uses the track id the audio element was found under. */
  datatype Lookup = AsWritten | ById

  /** How the `ended` handler treats `currentPlaying`: `Always` clears it, as
      the script does; `IfCurrent` clears it only when it refers to the finished track. */
  datatype Clear = Always | IfCurrent

  /** A version of the handlers: the script's is `Handlers(AsWritten, Always)`. */
  datatype Handlers = Handlers(lookup: Lookup, clear: Clear)

  /** The `data-track` value of the button the click handler resets for the
      stopped track `c`. The split lookup yields the part of `c` before its first `-`. */
  function ButtonKey(c: TrackId, how: Lookup): (k: TrackId)
    ensures how == ById ==> k == c
    ensures how == AsWritten ==> k == DashSplit.Split(c, '-')[0]
  {
    match how
    case AsWritten =>
      assert AudioId(c) == "audio" + ['-'] + c;
      DashSplit.SplitAfterPiece("audio", c, '-');
      DashSplit.Split(AudioId(c), '-')[1]
    case ById => c
  }

  // ---------------------------------------------------------------------------
  // Setup

  predicate DistinctTracks(buttons: seq<Button>)
  {
    forall i, j :: 0 <= i < j < |buttons| ==> buttons[i].track != buttons[j].track
  }

  /** What setup makes of one button: a paused audio element when `audio-<track>`
      exists, otherwise no audio and a disabled button. */
  function Attach(b: Button, audioIds: set<string>): Track
  {
    if AudioId(b.track) in audioIds then Track(Some(Paused), b.icon, b.disabled)
    else Track(None, b.icon, true)
  }

  /** The state right after the `forEach` over the play buttons. */
  ghost predicate Initial(p: Player, buttons: seq<Button>, audioIds: set<string>)
  {
    && p.current == None
    && p.tracks.Keys == (set i | 0 <= i < |buttons| :: buttons[i].track)
    && forall i :: 0 <= i < |buttons| ==> p.tracks[buttons[i].track] == Attach(buttons[i], audioIds)
  }

  /** The setup loop: every button gets a track; one without an audio element is
      disabled and gets no handlers (its audio stays absent). */
  method SetUp(buttons: seq<Button>, audioIds: set<string>) returns (p: Player)
    requires DistinctTracks(buttons)
    ensures Initial(p, buttons, audioIds)
    ensures forall t :: t in p.tracks ==> (p.tracks[t].audio.Some? <==> AudioId(t) in audioIds)
    ensures forall t :: t in p.tracks && p.tracks[t].audio.None? ==> p.tracks[t].disabled
  {
    var tracks: map<TrackId, Track> := map[];
    var i := 0;
    while i < |buttons|
      invariant 0 <= i <= |buttons|
      invariant tracks.Keys == set j | 0 <= j < i :: buttons[j].track
      invariant forall j :: 0 <= j < i ==> tracks[buttons[j].track] == Attach(buttons[j], audioIds)
    {
      tracks := tracks[buttons[i].track := Attach(buttons[i], audioIds)];
      i := i + 1;
    }
    p := Player(tracks, None);
  }

  // ---------------------------------------------------------------------------
  // Handlers

  /** The first half of a click on a paused track: pause the track `c` that
      `currentPlaying` refers to and reset the icon of the button the lookup finds. */
  function StopPrevious(p: Player, c: TrackId, how: Lookup): (r: Player)
    ensures r.tracks.Keys == p.tracks.Keys
    ensures r.current == p.current
    ensures c in p.tracks && p.tracks[c].audio.Some? ==> r.tracks[c].audio == Some(Paused)
    ensures ButtonKey(c, how) in p.tracks ==> r.tracks[ButtonKey(c, how)].icon == PlayGlyph
    ensures forall u :: u in p.tracks && u != c ==> r.tracks[u].audio == p.tracks[u].audio
    ensures forall u :: u in p.tracks && u != ButtonKey(c, how) ==> r.tracks[u].icon == p.tracks[u].icon
    ensures forall u :: u in p.tracks ==> r.tracks[u].disabled == p.tracks[u].disabled
  {
    var paused :=
      if c in p.tracks && p.tracks[c].audio.Some? then p.tracks[c := p.tracks[c].(audio := Some(Paused))]
      else p.tracks;
    var key := ButtonKey(c, how);
    var reset :=
      if key in paused then paused[key := paused[key].(icon := PlayGlyph)]
      else paused;
    p.(tracks := reset)
  }

  /** The click handler of track `t`, registered only when setup found its audio. */
  function OnClick(p: Player, t: TrackId, how: Lookup): (r: Player)
    requires t in p.tracks && p.tracks[t].audio.Some?
    ensures r.tracks.Keys == p.tracks.Keys
    ensures forall u :: u in p.tracks ==> r.tracks[u].disabled == p.tracks[u].disabled
    // a paused track starts, shows the pause glyph and becomes current
    ensures !p.tracks[t].IsPlaying() ==>
      && r.tracks[t].audio == Some(Playing) && r.tracks[t].icon == PauseGlyph
      && r.current == Some(t)
    // the track that was current is paused and the button the lookup finds shows the play glyph
    ensures !p.tracks[t].IsPlaying() && p.current.Some? && p.current.value != t ==>
      var c := p.current.value;
      && (c in p.tracks && p.tracks[c].audio.Some? ==> r.tracks[c].audio == Some(Paused))
      && (ButtonKey(c, how) in p.tracks && ButtonKey(c, how) != t ==> r.tracks[ButtonKey(c, how)].icon == PlayGlyph)
    // apart from the clicked and the stopped track, nothing plays or pauses
    ensures !p.tracks[t].IsPlaying() ==>
      forall u :: u in p.tracks && u != t && Some(u) != p.current ==> r.tracks[u].audio == p.tracks[u].audio
    // apart from the clicked track and the button the lookup finds, no icon changes
    ensures !p.tracks[t].IsPlaying() ==>
      forall u :: u in p.tracks && u != t && (p.current.None? || u != ButtonKey(p.current.value, how))
        ==> r.tracks[u].icon == p.tracks[u].icon
    // a playing track pauses, shows the play glyph, clears the reference, and nothing else changes
    ensures p.tracks[t].IsPlaying() ==>
      && r.tracks[t].audio == Some(Paused) && r.tracks[t].icon == PlayGlyph
      && r.current == None
      && forall u :: u in p.tracks && u != t ==> r.tracks[u] == p.tracks[u]
  {
    if !p.tracks[t].IsPlaying() then
      var q := if p.current.Some? && p.current.value != t then StopPrevious(p, p.current.value, how) else p;
      q.(tracks := q.tracks[t := q.tracks[t].(audio := Some(Playing), icon := PauseGlyph)], current := Some(t))
    else
      p.(tracks := p.tracks[t := p.tracks[t].(audio := Some(Paused), icon := PlayGlyph)], current := None)
  }

  /** The `ended` handler. When it runs, the element has reached its end and is
      paused (the browser pauses it then if it still plays). The icon is reset;
      the script clears `currentPlaying` whichever track it refers to. */
  function OnEnded(p: Player, t: TrackId, clear: Clear): (r: Player)
    requires t in p.tracks && p.tracks[t].audio.Some?
    ensures r.tracks.Keys == p.tracks.Keys
    ensures r.tracks[t].audio == Some(Paused) && r.tracks[t].icon == PlayGlyph
    ensures r.tracks[t].disabled == p.tracks[t].disabled
    ensures forall u :: u in p.tracks && u != t ==> r.tracks[u] == p.tracks[u]
    ensures clear == Always ==> r.current == None
    ensures clear == IfCurrent ==> (r.current == None <==> p.current.None? || p.current == Some(t))
    ensures clear == IfCurrent && r.current.Some? ==> r.current == p.current
  {
    var cleared := if clear == Always || p.current == Some(t) then None else p.current;
    Player(p.tracks[t := p.tracks[t].(audio := Some(Paused), icon := PlayGlyph)], cleared)
  }

  /** The `error` handler: it disables the button and touches nothing else, so
      `currentPlaying` may go on referring to a track whose button is disabled. */
  function OnError(p: Player, t: TrackId): (r: Player)
    requires t in p.tracks && p.tracks[t].audio.Some?
    ensures r.tracks.Keys == p.tracks.Keys
    ensures r.tracks[t].disabled
    ensures r.current == p.current
    ensures forall u :: u in p.tracks ==> r.tracks[u].audio == p.tracks[u].audio && r.tracks[u].icon == p.tracks[u].icon
    ensures forall u :: u in p.tracks && u != t ==> r.tracks[u] == p.tracks[u]
  {
    p.(tracks := p.tracks[t := p.tracks[t].(disabled := true)])
  }

  /** One dispatched event. A disabled button receives no clicks and a track
      without audio has no handlers. `ended` reaches any track with audio: the
      browser queues it when playback reaches the end, and a click handled in
      between may already have paused the track. */
  function Step(p: Player, e: Event, h: Handlers): (r: Player)
    ensures r.tracks.Keys == p.tracks.Keys
    ensures e.Click? && e.track in p.tracks && p.tracks[e.track].disabled ==> r == p
    ensures e.track !in p.tracks || p.tracks[e.track].audio.None? ==> r == p
    ensures e.Ended? && e.track in p.tracks && p.tracks[e.track].audio.Some? ==>
      r.tracks[e.track].audio == Some(Paused) && r.tracks[e.track].icon == PlayGlyph
  {
    var t := e.track;
    if t !in p.tracks || p.tracks[t].audio.None? then p
    else
      match e
      case Click(_) => if p.tracks[t].disabled then p else OnClick(p, t, h.lookup)
      case Ended(_) => OnEnded(p, t, h.clear)
      case Error(_) => OnError(p, t)
  }

  /** The state after a sequence of events. */
  function Run(p: Player, events: seq<Event>, h: Handlers): (r: Player)
    ensures r.tracks.Keys == p.tracks.Keys
    decreases |events|
  {
    if |events| == 0 then p else Run(Step(p, events[0], h), events[1..], h)
  }

  // ---------------------------------------------------------------------------
  // The single-track invariant

  /** A track plays exactly when `currentPlaying` refers to it. */
  ghost predicate Coherent(p: Player)
  {
    && (p.current.Some? ==> p.current.value in p.tracks)
    && forall t :: t in p.tracks ==> (p.tracks[t].IsPlaying() <==> p.current == Some(t))
  }

  ghost predicate AtMostOnePlaying(p: Player)
  {
    forall t, u :: t in p.tracks && u in p.tracks && p.tracks[t].IsPlaying() && p.tracks[u].IsPlaying() ==> t == u
  }

  ghost predicate CurrentIsPlaying(p: Player)
  {
    p.current.Some? ==> p.current.value in p.tracks && p.tracks[p.current.value].IsPlaying()
  }

  lemma CoherentIsSafe(p: Player)
    requires Coherent(p)
    ensures AtMostOnePlaying(p) && CurrentIsPlaying(p)
  {
  }

  lemma InitialIsCoherent(p: Player, buttons: seq<Button>, audioIds: set<string>)
    requires Initial(p, buttons, audioIds)
    ensures Coherent(p)
  {
    forall t | t in p.tracks ensures !p.tracks[t].IsPlaying() {
      var i :| 0 <= i < |buttons| && buttons[i].track == t;
    }
  }

  lemma ClickKeepsCoherent(p: Player, t: TrackId, how: Lookup)
    requires Coherent(p)
    requires t in p.tracks && p.tracks[t].audio.Some?
    ensures Coherent(OnClick(p, t, how))
  {
  }

  /** The script's `ended` handler keeps the invariant exactly when `currentPlaying`
      is unset or refers to the finished track; clearing only the finished
      track's own reference keeps it always. */
  lemma EndedKeepsCoherent(p: Player, t: TrackId)
    requires Coherent(p)
    requires t in p.tracks && p.tracks[t].audio.Some?
    ensures Coherent(OnEnded(p, t, Always)) <==> p.current.None? || p.current == Some(t)
    ensures Coherent(OnEnded(p, t, IfCurrent))
  {
    if p.current.Some? && p.current.value != t {
      var u := p.current.value;
      assert OnEnded(p, t, Always).tracks[u].IsPlaying();
    }
  }

  /** The two ways of clearing differ exactly when `currentPlaying` refers to
      another track than the finished one. */
  lemma EndedRulesAgree(p: Player, t: TrackId)
    requires t in p.tracks && p.tracks[t].audio.Some?
    ensures OnEnded(p, t, Always) == OnEnded(p, t, IfCurrent) <==> p.current.None? || p.current == Some(t)
  {
  }

  lemma ErrorKeepsCoherent(p: Player, t: TrackId)
    requires Coherent(p)
    requires t in p.tracks && p.tracks[t].audio.Some?
    ensures Coherent(OnError(p, t))
  {
  }

  /** An `ended` event that arrives after its track was paused while another track is current. */
  ghost predicate Late(p: Player, e: Event)
  {
    && e.Ended?
    && e.track in p.tracks
    && p.tracks[e.track].audio == Some(Paused)
    && p.current.Some?
  }

  /** An event keeps the invariant unless it is a late `ended` met by the script's clearing rule. */
  lemma StepKeepsCoherent(p: Player, e: Event, h: Handlers)
    requires Coherent(p)
    ensures Coherent(Step(p, e, h)) <==> h.clear == IfCurrent || !Late(p, e)
  {
    var t := e.track;
    if t in p.tracks && p.tracks[t].audio.Some? {
      match e
      case Click(_) =>
        if !p.tracks[t].disabled { ClickKeepsCoherent(p, t, h.lookup); }
      case Ended(_) =>
        EndedKeepsCoherent(p, t);
        if p.tracks[t].IsPlaying() {
          assert p.current == Some(t);
        } else if p.current.Some? {
          assert p.current != Some(t);
          assert p.tracks[t].audio.value == Paused;
          assert p.tracks[t].audio == Some(Paused);
          assert Late(p, e);
          assert Step(p, e, h) == OnEnded(p, t, h.clear);
          if h.clear == Always {
            assert !Coherent(OnEnded(p, t, Always));
          }
        }
      case Error(_) =>
        ErrorKeepsCoherent(p, t);
    }
  }

  /** No event of the sequence is a late `ended` that the handlers mishandle. */
  ghost predicate NoLateClear(p: Player, events: seq<Event>, h: Handlers)
    decreases |events|
  {
    |events| == 0 ||
    ((h.clear == IfCurrent || !Late(p, events[0])) && NoLateClear(Step(p, events[0], h), events[1..], h))
  }

  lemma {:induction false} IfCurrentHasNoLateClear(p: Player, events: seq<Event>, h: Handlers)
    requires h.clear == IfCurrent
    ensures NoLateClear(p, events, h)
    decreases |events|
  {
    if |events| > 0 {
      IfCurrentHasNoLateClear(Step(p, events[0], h), events[1..], h);
    }
  }

  lemma {:induction false} RunKeepsCoherent(p: Player, events: seq<Event>, h: Handlers)
    requires Coherent(p)
    requires NoLateClear(p, events, h)
    ensures Coherent(Run(p, events, h))
    decreases |events|
  {
    if |events| > 0 {
      StepKeepsCoherent(p, events[0], h);
      RunKeepsCoherent(Step(p, events[0], h), events[1..], h);
    }
  }

  /** From the page's initial state, under any sequence of events in which no
      late `ended` meets the script's clearing rule, at most one track plays and
      `currentPlaying`, when set, is that track. */
  lemma SingleTrackPlays(p: Player, buttons: seq<Button>, audioIds: set<string>, events: seq<Event>, h: Handlers)
    requires Initial(p, buttons, audioIds)
    requires NoLateClear(p, events, h)
    ensures AtMostOnePlaying(Run(p, events, h))
    ensures CurrentIsPlaying(Run(p, events, h))
  {
    InitialIsCoherent(p, buttons, audioIds);
    RunKeepsCoherent(p, events, h);
    CoherentIsSafe(Run(p, events, h));
  }

  /** With the `ended` handler clearing only its own reference, one track at
      most plays under every sequence of clicks, `ended` and `error` events. */
  lemma CorrectedSingleTrackPlays(p: Player, buttons: seq<Button>, audioIds: set<string>, events: seq<Event>, how: Lookup)
    requires Initial(p, buttons, audioIds)
    ensures AtMostOnePlaying(Run(p, events, Handlers(how, IfCurrent)))
    ensures CurrentIsPlaying(Run(p, events, Handlers(how, IfCurrent)))
  {
    IfCurrentHasNoLateClear(p, events, Handlers(how, IfCurrent));
    SingleTrackPlays(p, buttons, audioIds, events, Handlers(how, IfCurrent));
  }

  /** The script as written: track `a` plays; a click on `b` pauses it; the
      `ended` of `a`, queued before that click, then clears `currentPlaying`;
      a click on `c` therefore stops nothing, and `b` and `c` both play. */
  lemma LateEndedPlaysTwo(p: Player, a: TrackId, b: TrackId, c: TrackId, how: Lookup)
    requires Coherent(p)
    requires a in p.tracks && b in p.tracks && c in p.tracks
    requires a != b && b != c && a != c
    requires p.tracks[a].IsPlaying()
    requires p.tracks[b].audio.Some? && !p.tracks[b].disabled
    requires p.tracks[c].audio.Some? && !p.tracks[c].disabled
    ensures
      var r := Run(p, [Click(b), Ended(a), Click(c)], Handlers(how, Always));
      r.tracks[b].IsPlaying() && r.tracks[c].IsPlaying() && !AtMostOnePlaying(r)
  {
    var h := Handlers(how, Always);
    var p1 := Step(p, Click(b), h);
    assert p1 == OnClick(p, b, how);
    assert p1.tracks[b].IsPlaying() && p1.current == Some(b);
    assert p1.tracks[c].audio == p.tracks[c].audio && !p1.tracks[c].disabled;
    var p2 := Step(p1, Ended(a), h);
    assert p2 == OnEnded(p1, a, Always);
    assert p2.tracks[b] == p1.tracks[b] && p2.tracks[c] == p1.tracks[c] && p2.current == None;
    var p3 := Step(p2, Click(c), h);
    assert p3 == OnClick(p2, c, how);
    assert p3.tracks[c].IsPlaying() && p3.tracks[b].IsPlaying();
    RunThree(p, Click(b), Ended(a), Click(c), h);
  }

  /** A run of three events is three steps. */
  lemma RunThree(p: Player, e1: Event, e2: Event, e3: Event, h: Handlers)
    ensures Run(p, [e1, e2, e3], h) == Step(Step(Step(p, e1, h), e2, h), e3, h)
  {
    var q1 := Step(p, e1, h);
    var q2 := Step(q1, e2, h);
    var q3 := Step(q2, e3, h);
    assert [e1, e2, e3][1..] == [e2, e3];
    assert [e2, e3][1..] == [e3];
    assert [e3][1..] == [];
    assert Run(q3, [], h) == q3;
    assert Run(q2, [e3], h) == q3;
    assert Run(q1, [e2, e3], h) == q3;
  }

  // ---------------------------------------------------------------------------
  // Buttons that stay as they are

  /** A disabled button is never enabled again. */
  lemma {:induction false} RunKeepsDisabled(p: Player, events: seq<Event>, h: Handlers, t: TrackId)
    requires t in p.tracks && p.tracks[t].disabled
    ensures Run(p, events, h).tracks[t].disabled
    decreases |events|
  {
    if |events| > 0 {
      RunKeepsDisabled(Step(p, events[0], h), events[1..], h, t);
    }
  }

  /** A track without audio never plays and stays disabled; with the lookup by
      track id its icon never changes either. */
  lemma {:induction false} RunLeavesSilentTrack(p: Player, events: seq<Event>, h: Handlers, t: TrackId)
    requires t in p.tracks && p.tracks[t].audio.None? && p.tracks[t].disabled
    requires p.current != Some(t)
    ensures Run(p, events, h).tracks[t].audio.None?
    ensures Run(p, events, h).tracks[t].disabled
    ensures h.lookup == ById ==> Run(p, events, h).tracks[t] == p.tracks[t]
    decreases |events|
  {
    if |events| > 0 {
      var q := Step(p, events[0], h);
      assert q.tracks[t].audio.None? && q.tracks[t].disabled && q.current != Some(t);
      assert h.lookup == ById ==> q.tracks[t] == p.tracks[t];
      RunLeavesSilentTrack(q, events[1..], h, t);
    }
  }

  // ---------------------------------------------------------------------------
  // Icons and the button lookup

  /** Every button with audio shows the pause glyph exactly when its track plays. */
  ghost predicate IconsAgree(p: Player)
  {
    forall t :: t in p.tracks && p.tracks[t].audio.Some? ==> (p.tracks[t].icon == PauseGlyph <==> p.tracks[t].IsPlaying())
  }

  /** The lookup `AudioId(c).split('-')[1]` recovers `c` exactly when `c` holds no `-`. */
  lemma SplitLookupRoundTrip(c: TrackId)
    ensures ButtonKey(c, AsWritten) == c <==> '-' !in c
  {
    DashSplit.FirstPieceIsWhole(c, '-');
  }

  lemma InitialIconsAgree(p: Player, buttons: seq<Button>, audioIds: set<string>)
    requires Initial(p, buttons, audioIds)
    requires forall i :: 0 <= i < |buttons| ==> buttons[i].icon != PauseGlyph
    ensures IconsAgree(p)
  {
    forall t | t in p.tracks && p.tracks[t].audio.Some? ensures p.tracks[t].icon != PauseGlyph && !p.tracks[t].IsPlaying() {
      var i :| 0 <= i < |buttons| && buttons[i].track == t;
    }
  }

  /** With the lookup by track id a click keeps icons in step with playback. */
  lemma ClickByIdKeepsIcons(p: Player, t: TrackId)
    requires Coherent(p) && IconsAgree(p)
    requires t in p.tracks && p.tracks[t].audio.Some?
    ensures IconsAgree(OnClick(p, t, ById))
  {
  }

  lemma StepByIdKeepsIcons(p: Player, e: Event, clear: Clear)
    requires Coherent(p) && IconsAgree(p)
    ensures IconsAgree(Step(p, e, Handlers(ById, clear)))
  {
    var t := e.track;
    if t in p.tracks && p.tracks[t].audio.Some? && e.Click? && !p.tracks[t].disabled {
      ClickByIdKeepsIcons(p, t);
    }
  }

  /** The corrected handlers keep every icon in step with its track under every
      sequence of events. */
  lemma {:induction false} RunByIdKeepsIcons(p: Player, events: seq<Event>)
    requires Coherent(p) && IconsAgree(p)
    ensures IconsAgree(Run(p, events, Handlers(ById, IfCurrent)))
    decreases |events|
  {
    if |events| > 0 {
      var h := Handlers(ById, IfCurrent);
      StepKeepsCoherent(p, events[0], h);
      StepByIdKeepsIcons(p, events[0], IfCurrent);
      RunByIdKeepsIcons(Step(p, events[0], h), events[1..]);
    }
  }

  /** Track ids without `-`: the split lookup and the lookup by id make the same click. */
  lemma ClickLookupsAgree(p: Player, t: TrackId)
    requires t in p.tracks && p.tracks[t].audio.Some?
    requires p.current.Some? ==> '-' !in p.current.value
    ensures OnClick(p, t, AsWritten) == OnClick(p, t, ById)
  {
    if p.current.Some? {
      SplitLookupRoundTrip(p.current.value);
    }
  }

  /** On a page whose track ids hold no `-`, the split lookup behaves as the
      lookup by id under every sequence of events, whichever clearing rule. */
  lemma {:induction false} RunLookupsAgree(p: Player, events: seq<Event>, clear: Clear)
    requires p.current.Some? ==> p.current.value in p.tracks
    requires forall t :: t in p.tracks ==> '-' !in t
    ensures Run(p, events, Handlers(AsWritten, clear)) == Run(p, events, Handlers(ById, clear))
    decreases |events|
  {
    if |events| > 0 {
      var e := events[0];
      if e.Click? && e.track in p.tracks && p.tracks[e.track].audio.Some? && !p.tracks[e.track].disabled {
        ClickLookupsAgree(p, e.track);
      }
      var q := Step(p, e, Handlers(ById, clear));
      assert Step(p, e, Handlers(AsWritten, clear)) == q;
      assert q.current.Some? ==> q.current.value in q.tracks;
      RunLookupsAgree(q, events[1..], clear);
    }
  }

  /** With the split lookup, a track whose id holds `-` is paused by a click on
      another track but keeps showing the pause glyph. */
  lemma SplitLookupLeavesPauseGlyph()
    ensures
      var p := Player(map["a-b" := Track(Some(Playing), PauseGlyph, false),
                          "c" := Track(Some(Paused), PlayGlyph, false)], Some("a-b"));
      var r := Step(p, Click("c"), Handlers(AsWritten, Always));
      && Coherent(p) && IconsAgree(p)
      && r.tracks["a-b"].audio == Some(Paused)
      && r.tracks["a-b"].icon == PauseGlyph
      && !IconsAgree(r)
  {
    var p := Player(map["a-b" := Track(Some(Playing), PauseGlyph, false),
                        "c" := Track(Some(Paused), PlayGlyph, false)], Some("a-b"));
    assert ButtonKey("a-b", AsWritten) == "a" by {
      assert "a-b" == "a" + ['-'] + "b";
      DashSplit.SplitAfterPiece("a", "b", '-');
    }
    assert "a" !in p.tracks;
  }
}
