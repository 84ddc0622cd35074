/** Visual mode identifiers (`LEDModes`). Modes are plain integers in the
    controller: any integer can be set, and unknown ones render as white. */
module LedModes {
  const White := 0
  const Red := 1
  const Yellow := 2
  const Green := 3
  const Cyan := 4
  const Blue := 5
  const Magenta := 6
  const SolidColor := 7
  const Rainbow := 8
  const Fire := 9
  const Aurora := 10
  const RainbowChase := 11
  const Comet := 12
  const Twinkle := 13
  const Wave := 14
  const Chase := 15
  const Breathing := 16
  /** Number of values `mode_up` / `mode_down` cycle through (0..16). */
  const Count := 17

  /** Modes that advance the hue every tick. */
  predicate ColorCycling(m: int)
  {
    m == SolidColor || m == Rainbow || m == Wave || m == Chase || m == Breathing
  }

  /** Modes with no renderer of their own: 11, 12 and every out-of-range value. */
  predicate FallsBackToWhite(m: int)
  {
    m == RainbowChase || m == Comet || m < White || m > Breathing
  }
}

/** The controller's animation state and its per-frame rendering
    (`AnimationState`, `calculate_led_data`, `update_animation_state`,
    `handle_encoder_input` and the console setters). */
module Controller {
  import opened Common
  import opened Color
  import opened Feathering
  import Fire
  import Twinkle
  import opened Patterns
  import opened Encoder
  import LedModes

  const NumStrips := 3
  /** LEDs per strip as configured on the controller (strips 0, 1, 2). */
  const LedsPerStrip: seq<nat> := [800, 900, 1000]

  function LedCount(strip: int): (n: nat)
    requires 0 <= strip < NumStrips
    ensures n > 0
  {
    LedsPerStrip[strip]
  }

  datatype AnimationState = AnimationState(
    mode: int,
    brightness: int,
    hue: int,
    step: nat,
    fireHeat: seq<seq<int>>,
    twinkle: seq<seq<int>>,
    auroraIntensity: seq<seq<int>>,
    auroraPhase: int,
    auroraHue: int,
    bands: seq<real>,
    audioLevel: real,
    levels: Levels)

  /** Every per-strip array has its strip's length and in-range entries. */
  predicate StripArrays(st: AnimationState)
  {
    && |st.fireHeat| == NumStrips && |st.twinkle| == NumStrips && |st.auroraIntensity| == NumStrips
    && (forall s :: 0 <= s < NumStrips ==> |st.fireHeat[s]| == LedCount(s) && Fire.HeatInRange(st.fireHeat[s]))
    && (forall s :: 0 <= s < NumStrips ==> |st.twinkle[s]| == LedCount(s) && Twinkle.LevelsInRange(st.twinkle[s]))
    && (forall s :: 0 <= s < NumStrips ==> |st.auroraIntensity[s]| == LedCount(s))
  }

  /** The state invariants: brightness a byte, hue an angle in [0, 360), aurora
      phase in [0, 1000), well-shaped per-strip arrays, non-negative audio levels. */
  predicate Valid(st: AnimationState)
  {
    && 0 <= st.brightness <= 255
    && 0 <= st.hue < 360
    && 0 <= st.auroraPhase < 1000
    && StripArrays(st)
    && NonNegative(st.levels)
    && (forall k :: 0 <= k < |st.bands| ==> 0.0 <= st.bands[k])
  }

  datatype Controller = Controller(state: AnimationState, stripActive: seq<bool>, musicMode: bool)

  predicate ValidController(c: Controller)
  {
    Valid(c.state) && |c.stripActive| == NumStrips
  }

  /** `AnimationState()` plus the controller's defaults; the twinkle levels start
      from random values in [0, 255], taken as a parameter. */
  function Init(seed: seq<seq<int>>): (c: Controller)
    requires |seed| == NumStrips
    requires forall s :: 0 <= s < NumStrips ==> |seed[s]| == LedCount(s) && Twinkle.LevelsInRange(seed[s])
    ensures ValidController(c)
    ensures c.state.mode == LedModes.White && c.state.brightness == 255 && !c.musicMode
    ensures forall s :: 0 <= s < NumStrips ==> c.stripActive[s]
  {
    var zeros := seq(NumStrips, s requires 0 <= s < NumStrips => seq(LedCount(s), _ => 0));
    Controller(
      AnimationState(0, 255, 0, 0, zeros, seed, zeros, 0, 96, seq(8, _ => 0.0), 0.0, Levels(0.0, 0.0, 0.0)),
      [true, true, true],
      false)
  }

  /** The random draws, sine samples and audio data one strip's frame consumes. */
  datatype FrameInputs = FrameInputs(
    fire: Fire.FireDraws,
    twinkle: seq<Twinkle.TwinkleDraw>,
    aurora: seq<AuroraDraw>,
    waves: seq<int>,
    breath: int,
    bands: seq<real>,
    audioLevel: real)

  predicate ValidInputs(inp: FrameInputs, n: nat)
  {
    && Fire.ValidDraws(inp.fire, n)
    && Twinkle.ValidDraws(inp.twinkle, n)
    && ValidAuroraDraws(inp.aurora, n)
    && |inp.waves| == n && (forall i :: 0 <= i < n ==> SineSample(inp.waves[i]))
    && SineSample(inp.breath)
    && (forall k :: 0 <= k < |inp.bands| ==> 0.0 <= inp.bands[k])
  }

  /** `frequency_data[k] if len(frequency_data) > k else 0.0`. */
  function BandAt(bands: seq<real>, k: nat): real
  {
    if |bands| > k then bands[k] else 0.0
  }

  /** What the music-reactive renderers do first when music mode is on: copy the
      latest audio data into the state. */
  function RefreshLevels(st: AnimationState, inp: FrameInputs): (st': AnimationState)
    requires Valid(st) && forall k :: 0 <= k < |inp.bands| ==> 0.0 <= inp.bands[k]
    ensures Valid(st')
    ensures st'.levels == Levels(BandAt(inp.bands, 0), BandAt(inp.bands, 1), BandAt(inp.bands, 2))
  {
    st.(bands := inp.bands, audioLevel := inp.audioLevel,
        levels := Levels(BandAt(inp.bands, 0), BandAt(inp.bands, 1), BandAt(inp.bands, 2)))
  }

  /** The base colour of the flat-colour modes 1..6. */
  function BaseColor(m: int): Option<Pixel>
  {
    if m == LedModes.Red then Some(Pixel(255, 0, 0))
    else if m == LedModes.Yellow then Some(Pixel(255, 255, 0))
    else if m == LedModes.Green then Some(Pixel(0, 255, 0))
    else if m == LedModes.Cyan then Some(Pixel(0, 255, 255))
    else if m == LedModes.Blue then Some(Pixel(0, 0, 255))
    else if m == LedModes.Magenta then Some(Pixel(255, 0, 255))
    else None
  }

  datatype Frame = Frame(state: AnimationState, pixels: seq<Pixel>)

  /** The state a music-reactive mode renders with. */
  function ReactiveState(c: Controller, inp: FrameInputs): (st: AnimationState)
    requires ValidController(c) && forall k :: 0 <= k < |inp.bands| ==> 0.0 <= inp.bands[k]
    ensures Valid(st)
  {
    if c.musicMode then RefreshLevels(c.state, inp) else c.state
  }

  /** What a frame may change: only strip `strip`'s animation arrays and the
      audio fields; the mode, brightness, hue and step stay as they were. */
  predicate Keeps(st: AnimationState, strip: int, st': AnimationState)
    requires StripArrays(st) && StripArrays(st')
  {
    && st'.mode == st.mode && st'.brightness == st.brightness
    && st'.hue == st.hue && st'.step == st.step
    && st'.auroraPhase == st.auroraPhase && st'.auroraHue == st.auroraHue
    && forall t :: 0 <= t < NumStrips && t != strip ==>
      && st'.fireHeat[t] == st.fireHeat[t]
      && st'.twinkle[t] == st.twinkle[t]
      && st'.auroraIntensity[t] == st.auroraIntensity[t]
  }

  /** White mode and the flat-colour modes 1..7: the music-reactive renderers. */
  function ReactiveFrame(c: Controller, strip: int, inp: FrameInputs): (f: Frame)
    requires ValidController(c) && 0 <= strip < NumStrips && ValidInputs(inp, LedCount(strip))
    ensures |f.pixels| == LedCount(strip) && Valid(f.state) && Keeps(c.state, strip, f.state)
  {
    var rs := ReactiveState(c, inp);
    var n := LedCount(strip);
    var m := c.state.mode;
    if BaseColor(m).Some? then
      Frame(rs, ColorReactive(n, BaseColor(m).value, c.musicMode, rs.levels))
    else if m == LedModes.SolidColor then
      Frame(rs, SolidColor(n, c.state.hue, c.musicMode, rs.levels))
    else
      Frame(rs, ModeWhite(n, c.musicMode, rs.levels))
  }

  /** Fire mode: one step of the strip's heat automaton, shown through the ramp. */
  function FireFrame(st: AnimationState, strip: int, inp: FrameInputs): (f: Frame)
    requires Valid(st) && 0 <= strip < NumStrips && ValidInputs(inp, LedCount(strip))
    ensures |f.pixels| == LedCount(strip) && Valid(f.state) && Keeps(st, strip, f.state)
    ensures forall i :: 0 <= i < LedCount(strip) ==>
      f.pixels[i].r + f.pixels[i].g + f.pixels[i].b == 3 * f.state.fireHeat[strip][i]
  {
    var heat := Fire.FireStep(st.fireHeat[strip], inp.fire);
    Frame(st.(fireHeat := st.fireHeat[strip := heat]), Fire.HeatColors(heat))
  }

  function AuroraStripFrame(st: AnimationState, strip: int, inp: FrameInputs): (f: Frame)
    requires Valid(st) && 0 <= strip < NumStrips && ValidInputs(inp, LedCount(strip))
    ensures |f.pixels| == LedCount(strip) && Valid(f.state) && Keeps(st, strip, f.state)
  {
    var a := Aurora(LedCount(strip), inp.aurora);
    Frame(st.(auroraIntensity := st.auroraIntensity[strip := a.intensity]), a.pixels)
  }

  function TwinkleStripFrame(st: AnimationState, strip: int, inp: FrameInputs): (f: Frame)
    requires Valid(st) && 0 <= strip < NumStrips && ValidInputs(inp, LedCount(strip))
    ensures |f.pixels| == LedCount(strip) && Valid(f.state) && Keeps(st, strip, f.state)
  {
    var t := Twinkle.TwinkleFrame(st.twinkle[strip], inp.twinkle);
    Frame(st.(twinkle := st.twinkle[strip := t.levels]), t.pixels)
  }

  /** `calculate_led_data` for an active strip: dispatch on the mode. */
  function RenderMode(c: Controller, strip: int, inp: FrameInputs): (f: Frame)
    requires ValidController(c) && 0 <= strip < NumStrips && ValidInputs(inp, LedCount(strip))
    ensures |f.pixels| == LedCount(strip) && Valid(f.state) && Keeps(c.state, strip, f.state)
    ensures c.state.mode == LedModes.Fire ==>
      forall i :: 0 <= i < LedCount(strip) ==>
        f.pixels[i].r + f.pixels[i].g + f.pixels[i].b == 3 * f.state.fireHeat[strip][i]
  {
    var st := c.state;
    var n := LedCount(strip);
    var m := st.mode;
    if m == LedModes.White || BaseColor(m).Some? || m == LedModes.SolidColor then
      ReactiveFrame(c, strip, inp)
    else if m == LedModes.Rainbow then
      Frame(st, Rainbow(n, st.hue))
    else if m == LedModes.Fire then
      FireFrame(st, strip, inp)
    else if m == LedModes.Aurora then
      AuroraStripFrame(st, strip, inp)
    else if m == LedModes.Twinkle then
      TwinkleStripFrame(st, strip, inp)
    else if m == LedModes.Wave then
      Frame(st, Wave(n, st.hue, inp.waves))
    else if m == LedModes.Chase then
      Frame(st, Chase(n, st.step, st.hue))
    else if m == LedModes.Breathing then
      Frame(st, Breathing(n, st.hue, inp.breath))
    else
      ReactiveFrame(c, strip, inp)
  }

  /** `calculate_led_data`: exactly one pixel per LED of the strip for every mode
      value; an inactive strip is all black and leaves the state alone; the
      frame keeps the state invariants and touches only this strip's arrays and
      the audio fields, never the mode, brightness, hue or step. */
  function CalculateLedData(c: Controller, strip: int, inp: FrameInputs): (f: Frame)
    requires ValidController(c) && 0 <= strip < NumStrips && ValidInputs(inp, LedCount(strip))
    ensures |f.pixels| == LedCount(strip)
    ensures Valid(f.state) && Keeps(c.state, strip, f.state)
    ensures !c.stripActive[strip] ==> AllBlack(f.pixels) && f.state == c.state
    ensures c.stripActive[strip] && c.state.mode == LedModes.Fire ==>
      forall i :: 0 <= i < LedCount(strip) ==>
        f.pixels[i].r + f.pixels[i].g + f.pixels[i].b == 3 * f.state.fireHeat[strip][i]
  {
    if !c.stripActive[strip] then
      Frame(c.state, BlackStrip(LedCount(strip)))
    else
      RenderMode(c, strip, inp)
  }

  /** Modes 11, 12 and every unknown value render exactly as white mode does. */
  lemma FallbackIsWhite(c: Controller, strip: int, inp: FrameInputs)
    requires ValidController(c) && 0 <= strip < NumStrips && ValidInputs(inp, LedCount(strip))
    requires LedModes.FallsBackToWhite(c.state.mode)
    ensures CalculateLedData(c, strip, inp).pixels
         == CalculateLedData(c.(state := c.state.(mode := LedModes.White)), strip, inp).pixels
  {
  }

  /** Music mode off, mode white: every pixel is full white. */
  lemma WhiteWithoutMusic(c: Controller, strip: int, inp: FrameInputs)
    requires ValidController(c) && 0 <= strip < NumStrips && ValidInputs(inp, LedCount(strip))
    requires c.stripActive[strip] && !c.musicMode && c.state.mode == LedModes.White
    ensures forall i :: 0 <= i < LedCount(strip) ==> CalculateLedData(c, strip, inp).pixels[i] == White
  {
  }

  /** `update_animation_state`: the frame counter always advances; the hue turns
      by one degree only in the colour-cycling modes and the aurora phase by one
      only in aurora mode; nothing else changes. */
  function UpdateAnimationState(st: AnimationState): (st': AnimationState)
    requires Valid(st)
    ensures Valid(st')
    ensures st'.step == st.step + 1
    ensures LedModes.ColorCycling(st.mode) ==> st'.hue == (st.hue + 1) % 360
    ensures !LedModes.ColorCycling(st.mode) ==> st'.hue == st.hue
    ensures st.mode == LedModes.Aurora ==> st'.auroraPhase == (st.auroraPhase + 1) % 1000
    ensures st.mode != LedModes.Aurora ==> st'.auroraPhase == st.auroraPhase
    ensures st' == st.(step := st'.step, hue := st'.hue, auroraPhase := st'.auroraPhase)
  {
    var hue := if LedModes.ColorCycling(st.mode) then (st.hue + 1) % 360 else st.hue;
    var phase := if st.mode == LedModes.Aurora then (st.auroraPhase + 1) % 1000 else st.auroraPhase;
    st.(step := st.step + 1, hue := hue, auroraPhase := phase)
  }

  /** `k` ticks in a colour-cycling mode. */
  function Ticks(st: AnimationState, k: nat): (st': AnimationState)
    requires Valid(st)
    ensures Valid(st') && st'.mode == st.mode
  {
    if k == 0 then st else UpdateAnimationState(Ticks(st, k - 1))
  }

  /** After `k` ticks in a colour-cycling mode the hue has turned by `k` degrees,
      so it comes back to where it started every 360 ticks. */
  lemma {:induction false} HueTurns(st: AnimationState, k: nat)
    requires Valid(st) && LedModes.ColorCycling(st.mode)
    ensures Ticks(st, k).hue == (st.hue + k) % 360
    ensures Ticks(st, k).step == st.step + k
  {
    if k > 0 {
      HueTurns(st, k - 1);
      ModSucc(st.hue + k - 1, 360);
    }
  }

  /** Every whole number of turns (a multiple of 360 ticks) restores the hue. */
  lemma HueFullTurns(st: AnimationState, k: nat)
    requires Valid(st) && LedModes.ColorCycling(st.mode) && k % 360 == 0
    ensures Ticks(st, k).hue == st.hue
  {
    HueTurns(st, k);
    DivModUnique(st.hue + k, 360, k / 360, st.hue);
  }

  /** `handle_encoder_input`: mode steps wrap modulo 17 (from any current value),
      brightness steps move by 12 clamped to [0, 255], a toggle flips music mode;
      a button press or no action changes nothing. */
  function HandleEncoderInput(c: Controller, a: Option<Action>): (c': Controller)
    requires ValidController(c)
    ensures ValidController(c')
    ensures IsModeAction(a) ==> 0 <= c'.state.mode < LedModes.Count
    ensures a == Some(ModeUp) ==> c'.state.mode == (c.state.mode + 1) % LedModes.Count
    ensures a == Some(ModeDown) ==> c'.state.mode == (c.state.mode - 1) % LedModes.Count
    ensures a == Some(BrightnessUp) ==>
      c.state.brightness <= c'.state.brightness <= c.state.brightness + 12
      && (c'.state.brightness == 255 || c'.state.brightness == c.state.brightness + 12)
    ensures a == Some(BrightnessDown) ==>
      c.state.brightness - 12 <= c'.state.brightness <= c.state.brightness
      && (c'.state.brightness == 0 || c'.state.brightness == c.state.brightness - 12)
    ensures a == Some(ToggleMusicMode) <==> c'.musicMode != c.musicMode
    ensures c'.stripActive == c.stripActive
    ensures c'.state == c.state.(mode := c'.state.mode, brightness := c'.state.brightness)
    ensures a == None || a == Some(ButtonPress) ==> c' == c
  {
    var st := c.state;
    match a
    case None => c
    case Some(ModeUp) => c.(state := st.(mode := (st.mode + 1) % LedModes.Count))
    case Some(ModeDown) => c.(state := st.(mode := (st.mode - 1) % LedModes.Count))
    case Some(BrightnessUp) => c.(state := st.(brightness := Min(255, st.brightness + 12)))
    case Some(BrightnessDown) => c.(state := st.(brightness := Max(0, st.brightness - 12)))
    case Some(ToggleMusicMode) => ToggleMusic(c)
    case Some(ButtonPress) => c
  }

  /** Mode down undoes mode up (and vice versa) for every mode in 0..16. */
  lemma ModeStepsInverse(c: Controller)
    requires ValidController(c) && 0 <= c.state.mode < LedModes.Count
    ensures HandleEncoderInput(HandleEncoderInput(c, Some(ModeUp)), Some(ModeDown)) == c
    ensures HandleEncoderInput(HandleEncoderInput(c, Some(ModeDown)), Some(ModeUp)) == c
  {
    var m := c.state.mode;
    ModBelowTwice(m + 1, LedModes.Count);
    ModBelowTwice(m + LedModes.Count - 1, LedModes.Count);
    DivModUnique(m - 1, LedModes.Count, if m == 0 then -1 else 0, if m == 0 then 16 else m - 1);
    var up := (m + 1) % LedModes.Count;
    var down := (m - 1) % LedModes.Count;
    DivModUnique(up - 1, LedModes.Count, if up == 0 then -1 else 0, if up == 0 then 16 else up - 1);
    ModBelowTwice(down + 1, LedModes.Count);
  }

  /** Seventeen mode-up steps come back to the starting mode. */
  lemma ModeUpCycle(c: Controller, k: nat)
    requires ValidController(c) && 0 <= c.state.mode < LedModes.Count
    ensures ModeUps(c, k).state.mode == (c.state.mode + k) % LedModes.Count
    ensures ModeUps(c, LedModes.Count).state.mode == c.state.mode
  {
    ModeUpsTurn(c, k);
    ModeUpsTurn(c, LedModes.Count);
    DivModUnique(c.state.mode + LedModes.Count, LedModes.Count, 1, c.state.mode);
  }

  function ModeUps(c: Controller, k: nat): (c': Controller)
    requires ValidController(c)
    ensures ValidController(c')
  {
    if k == 0 then c else HandleEncoderInput(ModeUps(c, k - 1), Some(ModeUp))
  }

  lemma {:induction false} ModeUpsTurn(c: Controller, k: nat)
    requires ValidController(c) && 0 <= c.state.mode < LedModes.Count
    ensures ModeUps(c, k).state.mode == (c.state.mode + k) % LedModes.Count
  {
    if k == 0 {
      DivModUnique(c.state.mode, LedModes.Count, 0, c.state.mode);
    } else {
      ModeUpsTurn(c, k - 1);
      ModSucc(c.state.mode + k - 1, LedModes.Count);
    }
  }

  /** Brightness down undoes brightness up whenever the step up was not clamped. */
  lemma BrightnessStepsInverse(c: Controller)
    requires ValidController(c) && c.state.brightness <= 243
    ensures HandleEncoderInput(HandleEncoderInput(c, Some(BrightnessUp)), Some(BrightnessDown)) == c
  {
  }

  /** `toggle_music_mode`, without the audio thread start/stop. */
  function ToggleMusic(c: Controller): (c': Controller)
    ensures c'.musicMode == !c.musicMode
    ensures c'.state == c.state && c'.stripActive == c.stripActive
  {
    c.(musicMode := !c.musicMode)
  }

  /** `set_mode`: any integer is accepted as the mode. */
  function SetMode(c: Controller, m: int): (c': Controller)
    requires ValidController(c)
    ensures ValidController(c') && c'.state.mode == m
    ensures c' == c.(state := c.state.(mode := m))
  {
    c.(state := c.state.(mode := m))
  }

  /** `set_mode` does not validate its argument; a mode it stores that has no
      renderer (11, 12 or outside 0..16) shows what white mode shows. */
  lemma SetModeOutOfRangeRendersWhite(c: Controller, m: int, strip: int, inp: FrameInputs)
    requires ValidController(c) && 0 <= strip < NumStrips && ValidInputs(inp, LedCount(strip))
    requires LedModes.FallsBackToWhite(m)
    ensures CalculateLedData(SetMode(c, m), strip, inp).pixels
         == CalculateLedData(SetMode(c, LedModes.White), strip, inp).pixels
  {
    FallbackIsWhite(SetMode(c, m), strip, inp);
    assert SetMode(c, m).(state := SetMode(c, m).state.(mode := LedModes.White)) == SetMode(c, LedModes.White);
  }

  /** `set_brightness`: the value clamped to [0, 255]; in-range values are taken
      exactly. */
  function SetBrightness(c: Controller, b: int): (c': Controller)
    requires ValidController(c)
    ensures ValidController(c')
    ensures 0 <= b <= 255 ==> c'.state.brightness == b
    ensures b < 0 ==> c'.state.brightness == 0
    ensures b > 255 ==> c'.state.brightness == 255
    ensures c' == c.(state := c.state.(brightness := c'.state.brightness))
  {
    c.(state := c.state.(brightness := Clamp(0, 255, b)))
  }

  /** Setting the same brightness twice is the same as setting it once. */
  lemma SetBrightnessIdempotent(c: Controller, b: int)
    requires ValidController(c)
    ensures SetBrightness(SetBrightness(c, b), b) == SetBrightness(c, b)
  {
  }

  /** `set_strip_active`: an index outside 0..2 is ignored; otherwise only that
      strip's flag changes. */
  function SetStripActive(c: Controller, strip: int, active: bool): (c': Controller)
    requires ValidController(c)
    ensures ValidController(c')
    ensures !(0 <= strip < NumStrips) ==> c' == c
    ensures 0 <= strip < NumStrips ==> c'.stripActive[strip] == active
    ensures forall t :: 0 <= t < NumStrips && t != strip ==> c'.stripActive[t] == c.stripActive[t]
    ensures c'.state == c.state && c'.musicMode == c.musicMode
  {
    if 0 <= strip < NumStrips then c.(stripActive := c.stripActive[strip := active]) else c
  }

  /** A deactivated strip renders black whatever the mode. */
  lemma DeactivatedStripIsBlack(c: Controller, strip: int, inp: FrameInputs)
    requires ValidController(c) && 0 <= strip < NumStrips && ValidInputs(inp, LedCount(strip))
    ensures AllBlack(CalculateLedData(SetStripActive(c, strip, false), strip, inp).pixels)
  {
  }
}
