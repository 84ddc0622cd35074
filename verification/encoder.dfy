/** The rotary-encoder gesture machine (`EncoderHandler`): the rotation callback,
    the button callback and the per-tick poll, as pure transitions. Times are
    milliseconds and pin levels are parameters (`true` is a high level; the
    button pin is active low). */
module Encoder {
  import opened Common

  datatype Pins = Pins(clk: bool, dt: bool, sw: bool)

  datatype EncoderState = EncoderState(
    value: int,                // encoder_value
    stepCounter: int,          // encoder_step_counter
    lastInterrupt: int,        // last_interrupt_time
    lastButtonInterrupt: int,  // last_button_interrupt_time
    pressStart: int,           // button_press_start_time
    pressDuration: int,        // button_press_duration
    rotationDuringPress: bool, // rotation_during_press
    released: bool,            // button_released
    buttonPressed: bool)       // encoder_button_pressed

  const Initial := EncoderState(0, 0, 0, 0, 0, 0, false, false, false)

  datatype Action = ModeUp | ModeDown | BrightnessUp | BrightnessDown | ButtonPress | ToggleMusicMode

  datatype Step = Step(enc: EncoderState, action: Option<Action>)

  const RotationDebounceMs := 5
  const ButtonDebounceMs := 200
  const MinTogglePressMs := 100
  /** Mode values the encoder cycles through: 0..16 (17 is reserved for music mode). */
  const CycledModes := 17

  /** The encoder's bookkeeping invariant: a mode value in 0..16 and a step
      accumulator that never rests at two steps or more. */
  predicate Valid(e: EncoderState)
  {
    0 <= e.value < CycledModes && -1 <= e.stepCounter <= 1
  }

  predicate IsModeAction(a: Option<Action>) { a == Some(ModeUp) || a == Some(ModeDown) }

  predicate IsBrightnessAction(a: Option<Action>) { a == Some(BrightnessUp) || a == Some(BrightnessDown) }

  /** `_encoder_callback`: one quadrature edge, sampled at time `now`. A debounced
      edge moves the accumulator; with the button held one step emits a brightness
      action, otherwise two steps emit a mode action. The debounce stamp is taken
      only when no action is returned. */
  function EncoderCallback(e: EncoderState, now: int, p: Pins): (s: Step)
    requires Valid(e)
    ensures Valid(s.enc)
    ensures s.action.Some? ==> s.enc.stepCounter == 0 && s.enc.lastInterrupt == e.lastInterrupt
    ensures s.action.None? ==> s.enc.lastInterrupt == now
    ensures !p.sw ==> s.action.None? || IsBrightnessAction(s.action)
    ensures p.sw ==> s.action.None? || IsModeAction(s.action)
    ensures s.action == Some(ModeUp) ==> s.enc.value == (e.value + 1) % CycledModes
    ensures s.action == Some(ModeDown) ==> s.enc.value == (e.value - 1) % CycledModes
    ensures !IsModeAction(s.action) ==> s.enc.value == e.value
    ensures now - e.lastInterrupt <= RotationDebounceMs ==> s == Step(e.(lastInterrupt := now), None)
    ensures now - e.lastInterrupt > RotationDebounceMs ==>
      var c := e.stepCounter + (if p.clk != p.dt then 1 else -1);
      && (s.action == Some(BrightnessUp) <==> !p.sw && c >= 1)
      && (s.action == Some(BrightnessDown) <==> !p.sw && c <= -1)
      && (s.action == Some(ModeUp) <==> p.sw && c >= 2)
      && (s.action == Some(ModeDown) <==> p.sw && c <= -2)
      && (s.action.None? ==> s.enc.stepCounter == c)
      && s.enc.rotationDuringPress == (e.rotationDuringPress || (!p.sw && e.pressStart > 0))
    ensures s.enc.(value := e.value, stepCounter := e.stepCounter, lastInterrupt := e.lastInterrupt,
                   rotationDuringPress := e.rotationDuringPress) == e
  {
    if now - e.lastInterrupt > RotationDebounceMs then
      var counter := if p.clk != p.dt then e.stepCounter + 1 else e.stepCounter - 1;
      var held := !p.sw;
      var rotated := if held && e.pressStart > 0 then true else e.rotationDuringPress;
      var e1 := e.(stepCounter := counter, rotationDuringPress := rotated);
      if held then
        if counter >= 1 then Step(e1.(stepCounter := 0), Some(BrightnessUp))
        else if counter <= -1 then Step(e1.(stepCounter := 0), Some(BrightnessDown))
        else Step(e1.(lastInterrupt := now), None)
      else
        if counter >= 2 then
          var v := if e.value + 1 >= CycledModes then 0 else e.value + 1;
          Step(e1.(value := v, stepCounter := 0), Some(ModeUp))
        else if counter <= -2 then
          var v := if e.value - 1 < 0 then CycledModes - 1 else e.value - 1;
          Step(e1.(value := v, stepCounter := 0), Some(ModeDown))
        else Step(e1.(lastInterrupt := now), None)
    else
      Step(e.(lastInterrupt := now), None)
  }

  /** `_button_callback`: a debounced edge seen with the pin low starts a press
      (clearing the rotation flag and raising the press flag); one seen with the
      pin high ends a started press and records its duration. The stamp is
      always taken. */
  function ButtonCallback(e: EncoderState, now: int, p: Pins): (e': EncoderState)
    ensures e'.lastButtonInterrupt == now
    ensures e'.value == e.value && e'.stepCounter == e.stepCounter && e'.lastInterrupt == e.lastInterrupt
    ensures now - e.lastButtonInterrupt > ButtonDebounceMs && !p.sw ==>
      e'.pressStart == now && e'.buttonPressed && !e'.released && !e'.rotationDuringPress
    ensures now - e.lastButtonInterrupt > ButtonDebounceMs && !p.sw ==>
      e' == e.(pressStart := now, rotationDuringPress := false, released := false, buttonPressed := true,
               lastButtonInterrupt := now)
    ensures now - e.lastButtonInterrupt > ButtonDebounceMs && p.sw && e.pressStart > 0 ==>
      e'.released && e'.pressDuration == now - e.pressStart && e'.pressStart == e.pressStart
    ensures now - e.lastButtonInterrupt > ButtonDebounceMs && p.sw && e.pressStart > 0 ==>
      e' == e.(pressDuration := now - e.pressStart, released := true, lastButtonInterrupt := now)
    ensures (now - e.lastButtonInterrupt <= ButtonDebounceMs || (p.sw && e.pressStart <= 0)) ==>
      e' == e.(lastButtonInterrupt := now)
  {
    var e1 :=
      if now - e.lastButtonInterrupt > ButtonDebounceMs then
        if !p.sw then
          e.(pressStart := now, rotationDuringPress := false, released := false, buttonPressed := true)
        else if e.pressStart > 0 then
          e.(pressDuration := now - e.pressStart, released := true)
        else e
      else e;
    e1.(lastButtonInterrupt := now)
  }

  /** A completed press that qualifies as a music-mode toggle. */
  predicate TogglePending(e: EncoderState)
  {
    e.released && e.pressStart > 0 && !e.rotationDuringPress && e.pressDuration > MinTogglePressMs
  }

  /** `get_encoder_action`: at most one action per poll, by priority: a qualifying
      release toggles music mode (the release is consumed whether or not it
      qualifies), then a pending press is reported, and otherwise the rotation
      callback is run at poll time. */
  function GetEncoderAction(e: EncoderState, now: int, p: Pins): (s: Step)
    requires Valid(e)
    ensures Valid(s.enc)
    ensures TogglePending(e) <==> s.action == Some(ToggleMusicMode)
    ensures e.released && e.pressStart > 0 ==> !s.enc.released && s.enc.pressStart == 0
    ensures !TogglePending(e) && e.buttonPressed ==> s.action == Some(ButtonPress) && !s.enc.buttonPressed
    ensures s.action == Some(ToggleMusicMode) ==> s.enc.buttonPressed == e.buttonPressed
    ensures TogglePending(e) ==> s.enc == e.(released := false, pressStart := 0, rotationDuringPress := false)
    ensures !TogglePending(e) && e.buttonPressed ==>
      s.enc == (if e.released && e.pressStart > 0 then e.(released := false, pressStart := 0) else e).(buttonPressed := false)
    ensures !TogglePending(e) && !e.buttonPressed ==>
      var e1 := if e.released && e.pressStart > 0 then e.(released := false, pressStart := 0) else e;
      s == EncoderCallback(e1, now, p)
  {
    var e1 := if e.released && e.pressStart > 0 then e.(released := false, pressStart := 0) else e;
    if e.released && e.pressStart > 0 && !e.rotationDuringPress && e.pressDuration > MinTogglePressMs then
      Step(e1.(rotationDuringPress := false), Some(ToggleMusicMode))
    else if e1.buttonPressed then
      Step(e1.(buttonPressed := false), Some(ButtonPress))
    else
      var s := EncoderCallback(e1, now, p);
      assert s.action != Some(ButtonPress) && s.action != Some(ToggleMusicMode);
      s
  }

  /** A rotation edge with the button up that does not complete two steps emits
      nothing; the next same-direction edge emits exactly one mode action and
      clears the accumulator. */
  lemma TwoEdgesOneModeStep(e: EncoderState, t1: int, t2: int, p: Pins)
    requires Valid(e) && e.stepCounter == 0 && p.sw
    requires t1 - e.lastInterrupt > RotationDebounceMs && t2 - t1 > RotationDebounceMs
    ensures var s1 := EncoderCallback(e, t1, p);
      && s1.action == None
      && var s2 := EncoderCallback(s1.enc, t2, p);
      && s2.action == (if p.clk != p.dt then Some(ModeUp) else Some(ModeDown))
      && s2.enc.stepCounter == 0
  {
  }

  /** With the button held, a debounced edge during a press leaves the
      accumulator at rest and marks the press as rotated. It is a brightness step
      in its own direction unless it cancels a pending opposite step, so from a
      rested accumulator it always is one. */
  lemma HeldEdgeAdjustsBrightness(e: EncoderState, t: int, p: Pins)
    requires Valid(e) && !p.sw && e.pressStart > 0
    requires t - e.lastInterrupt > RotationDebounceMs
    ensures var s := EncoderCallback(e, t, p);
      var c := e.stepCounter + (if p.clk != p.dt then 1 else -1);
      && s.enc.stepCounter == 0
      && s.enc.rotationDuringPress
      && (s.action.None? <==> c == 0)
      && (c != 0 ==> s.action == (if p.clk != p.dt then Some(BrightnessUp) else Some(BrightnessDown)))
      && (e.stepCounter == 0 ==> s.action == (if p.clk != p.dt then Some(BrightnessUp) else Some(BrightnessDown)))
  {
  }

  /** With the button up, an edge followed by an edge the other way returns the
      accumulator and the mode value to where they were, and neither emits. */
  lemma OppositeEdgesCancel(e: EncoderState, t1: int, t2: int, p: Pins, q: Pins)
    requires Valid(e) && e.stepCounter == 0 && p.sw && q.sw
    requires (p.clk != p.dt) != (q.clk != q.dt)
    requires t1 - e.lastInterrupt > RotationDebounceMs && t2 - t1 > RotationDebounceMs
    ensures var s1 := EncoderCallback(e, t1, p);
      var s2 := EncoderCallback(s1.enc, t2, q);
      && s1.action == None && s2.action == None
      && s2.enc == e.(lastInterrupt := t2)
  {
  }

  /** Sixteen mode-up steps and one more wrap to 0; mode-down from 0 wraps to 16.
      The reserved music-mode value 17 is never produced. */
  lemma ModeValueWraps(e: EncoderState, t: int, p: Pins)
    requires Valid(e) && p.sw && t - e.lastInterrupt > RotationDebounceMs
    requires e.stepCounter == (if p.clk != p.dt then 1 else -1)
    ensures var s := EncoderCallback(e, t, p);
      && (e.value == 16 && p.clk != p.dt ==> s.enc.value == 0)
      && (e.value == 0 && p.clk == p.dt ==> s.enc.value == 16)
      && s.enc.value != 17
  {
  }

  /** A press followed, more than 200 ms later, by a release with no rotation
      and no poll in between yields a toggle on the next poll. The animation
      loop polls every 50 ms, so a press that long is never left unpolled:
      `PolledPressNeverToggles` shows what a poll inside it does. */
  lemma PressReleaseToggles(e: EncoderState, t0: int, d: int, now: int, down: Pins, up: Pins)
    requires Valid(e) && t0 - e.lastButtonInterrupt > ButtonDebounceMs && t0 > 0
    requires !down.sw && up.sw && d > ButtonDebounceMs
    ensures var pressed := ButtonCallback(e, t0, down);
      var releasedState := ButtonCallback(pressed, t0 + d, up);
      GetEncoderAction(releasedState, now, up).action == Some(ToggleMusicMode)
  {
  }

  /** As written, polling during a press defeats the toggle: the first poll
      reports the press, the next debounced poll runs the rotation callback with
      the button held, which marks the press as rotated (and, from a rested
      accumulator, steps the brightness), and the release more
      than 200 ms after the press then never toggles. */
  lemma PolledPressNeverToggles(e: EncoderState, t0: int, t1: int, t2: int, t3: int, now: int,
                                down: Pins, up: Pins)
    requires Valid(e) && t0 - e.lastButtonInterrupt > ButtonDebounceMs && t0 > 0
    requires !down.sw && up.sw
    requires t2 - e.lastInterrupt > RotationDebounceMs && t3 - t0 > ButtonDebounceMs
    ensures var pressed := ButtonCallback(e, t0, down);
      var poll1 := GetEncoderAction(pressed, t1, down);
      var poll2 := GetEncoderAction(poll1.enc, t2, down);
      var releasedState := ButtonCallback(poll2.enc, t3, up);
      && poll1.action == Some(ButtonPress)
      && (e.stepCounter == 0 ==> IsBrightnessAction(poll2.action))
      && poll2.enc.rotationDuringPress
      && releasedState.released
      && GetEncoderAction(releasedState, now, up).action != Some(ToggleMusicMode)
  {
  }

  /** The poll as evidently intended: a poll-time sample of the pins is not a
      rotation edge, so it does not mark an open press as rotated. Everything
      else is the poll as written. */
  function PollIntended(e: EncoderState, now: int, p: Pins): (s: Step)
    requires Valid(e)
    ensures Valid(s.enc)
    ensures s.action == GetEncoderAction(e, now, p).action
    ensures TogglePending(e) <==> s.action == Some(ToggleMusicMode)
    ensures s.enc.rotationDuringPress == e.rotationDuringPress
    ensures !e.released ==>
      && s.enc.released == e.released && s.enc.pressStart == e.pressStart
      && s.enc.lastButtonInterrupt == e.lastButtonInterrupt
  {
    var s := GetEncoderAction(e, now, p);
    s.(enc := s.enc.(rotationDuringPress := e.rotationDuringPress))
  }

  /** The intended poll run once per entry of `times` with pin levels `p`. */
  function PollsIntended(e: EncoderState, times: seq<int>, p: Pins): (e': EncoderState)
    requires Valid(e)
    ensures Valid(e')
    decreases |times|
  {
    if times == [] then e else PollsIntended(PollIntended(e, times[0], p).enc, times[1..], p)
  }

  /** Intended polls leave an open press open, unrotated and with its stamps. */
  lemma {:induction false} PollsKeepOpenPress(e: EncoderState, times: seq<int>, p: Pins)
    requires Valid(e) && !e.released
    ensures var e' := PollsIntended(e, times, p);
      && !e'.released && e'.pressStart == e.pressStart
      && e'.rotationDuringPress == e.rotationDuringPress
      && e'.lastButtonInterrupt == e.lastButtonInterrupt
    decreases |times|
  {
    if times != [] {
      PollsKeepOpenPress(PollIntended(e, times[0], p).enc, times[1..], p);
    }
  }

  /** With the intended poll, a press released more than 200 ms later without
      a rotation edge toggles music mode, however many polls fall inside it. */
  lemma IntendedPressToggles(e: EncoderState, t0: int, times: seq<int>, t3: int, now: int,
                             down: Pins, up: Pins)
    requires Valid(e) && t0 - e.lastButtonInterrupt > ButtonDebounceMs && t0 > 0
    requires !down.sw && up.sw && t3 - t0 > ButtonDebounceMs
    ensures var pressed := ButtonCallback(e, t0, down);
      var held := PollsIntended(pressed, times, down);
      var releasedState := ButtonCallback(held, t3, up);
      PollIntended(releasedState, now, up).action == Some(ToggleMusicMode)
  {
    var pressed := ButtonCallback(e, t0, down);
    PollsKeepOpenPress(pressed, times, down);
  }

  /** A release edge within 200 ms of the press is debounced away, so a short
      press never toggles: the next poll reports the press instead. */
  lemma ShortPressNeverToggles(e: EncoderState, t0: int, d: int, now: int, down: Pins, up: Pins)
    requires Valid(e) && t0 - e.lastButtonInterrupt > ButtonDebounceMs && t0 > 0
    requires !down.sw && up.sw && 0 <= d <= ButtonDebounceMs
    ensures var pressed := ButtonCallback(e, t0, down);
      var after := ButtonCallback(pressed, t0 + d, up);
      GetEncoderAction(after, now, up).action == Some(ButtonPress)
  {
  }

  /** Turning the knob while the button is held suppresses the toggle on release. */
  lemma RotationSuppressesToggle(e: EncoderState, t0: int, t1: int, t2: int, now: int, down: Pins, up: Pins)
    requires Valid(e) && t0 - e.lastButtonInterrupt > ButtonDebounceMs && t0 > 0
    requires !down.sw && up.sw && t2 - t0 > ButtonDebounceMs
    requires t1 - e.lastInterrupt > RotationDebounceMs
    ensures var pressed := ButtonCallback(e, t0, down);
      var turned := EncoderCallback(pressed, t1, down).enc;
      var releasedState := ButtonCallback(turned, t2, up);
      GetEncoderAction(releasedState, now, up).action != Some(ToggleMusicMode)
  {
  }

  /** The poll runs the rotation callback on the current pin levels even when no
      edge occurred, so two polls more than 5 ms apart with the button up and no
      pending press always emit a mode action: the mode drifts while the knob
      rests. */
  lemma IdlePollsChangeMode(e: EncoderState, t1: int, t2: int, p: Pins)
    requires Valid(e) && e.stepCounter == 0 && !e.released && !e.buttonPressed && p.sw
    requires t1 - e.lastInterrupt > RotationDebounceMs && t2 - t1 > RotationDebounceMs
    ensures var s1 := GetEncoderAction(e, t1, p);
      && s1.action == None
      && GetEncoderAction(s1.enc, t2, p).action == (if p.clk != p.dt then Some(ModeUp) else Some(ModeDown))
  {
  }
}
