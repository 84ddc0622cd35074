# LED lighting controller: frame, packet and receiver model

This project models a three-strip LED lighting system.

A Raspberry Pi controller (`led_controller.py`) keeps an animation state. It
reads a rotary encoder and renders one frame per strip in each of seventeen
visual modes. Every 50 ms it sends each frame over UDP as
`[strip id][brightness][R G B]...`. On each strip an ESP32 receiver
(`esp32_receiver`) checks the datagram's length and strip id. It then sets the
brightness and the LED colours, and it blanks the strip after 5 s of silence.
A connection-test script (`test_connection.py`) builds a fixed test datagram.

The model is functional. Every step is a pure function over immutable records.
Random draws, encoder pin levels, millisecond timestamps and `sin` samples are
explicit parameters with the bounds the source gives them. Brightness and
colour arithmetic use Dafny reals.

Modules and files:

- `Common` (`common.dfy`): bytes, pixels, `Option`, and Python's `int()`
  truncation (`Trunc`).
- `Color` (`color.dfy`): `hsv_to_rgb`.
- `Feathering` (`feathering.dfy`): frequency sections and feathered
  music-mode brightness.
- `Fire` (`fire.dfy`): the heat automaton and its colour ramp.
- `Twinkle` (`twinkle.dfy`): twinkle mode.
- `Patterns` (`patterns.dfy`): the music-reactive colour modes, rainbow,
  wave, breathing, chase and aurora.
- `Audio` (`audio.dfy`): the three-slot band reduction.
- `Encoder` (`encoder.dfy`): the rotary-encoder gesture machine.
- `LedModes` and `Controller` (`controller.dfy`): the animation state, mode
  dispatch, tick update, encoder handling and console setters.
- `Packet` (`packet.dfy`): the datagram layout and the test datagram.
- `Receiver` (`receiver.dfy`): the ESP32 firmware.
- `AnimationLoop` (`animation_loop.dfy`): one pass of the main loop.
- `Wire` (`wire.dfy`): both ends of the link together.

Where the prose design description and the code disagree, the model follows
the code:

- **Toggle threshold.** A music-mode toggle needs a press longer than 100 ms,
  strictly. `Encoder.PressReleaseToggles` shows the toggle for a press with
  no poll while the button is down. The loop polls every 50 ms, though, and a
  poll during a press marks it as rotated, so as written the toggle is never
  reached (`Encoder.PolledPressNeverToggles`, listed under Findings).
- **Short presses.** The button callback debounces any edge within 200 ms of
  the previous one. The release of a press shorter than that is therefore
  dropped, so the press is reported as a plain button press and never as a
  toggle (`Encoder.ShortPressNeverToggles`).
- **Idle polls drift the mode.** `get_encoder_action` runs the rotation
  callback on every poll, even when no edge occurred. That callback counts a
  step from the static pin levels, so two idle polls more than 5 ms apart emit
  a mode action (`Encoder.IdlePollsChangeMode`).

## Model

| member | source | states |
|---|---|---|
| Color.RealMod | Lighting_State_Machine/raspberry_pi_controller/led_controller.py:473 | `h % 360` on a float lands in [0, 360) whatever the sign of `h` |
| Color.RealModShift | Lighting_State_Machine/raspberry_pi_controller/led_controller.py:473 | adding one full period does not change the reduced hue |
| Color.Arrange | Lighting_State_Machine/raspberry_pi_controller/led_controller.py:478-489 | whichever 60° sector the hue is in, the brightest and dimmest channels carry the given top and bottom values |
| Color.MidComponent | Lighting_State_Machine/raspberry_pi_controller/led_controller.py:475 | the secondary component `x` lies between 0 and the chroma `c` |
| Color.ChannelMonotone | Lighting_State_Machine/raspberry_pi_controller/led_controller.py:491 | a larger component never gives a smaller output byte |
| Color.HsvToRgb | Lighting_State_Machine/raspberry_pi_controller/led_controller.py:471-491 | every channel is a byte; the brightest channel is `int(v*255)` and the dimmest `int((v - v*s)*255)` |
| Color.HsvPeriodic | Lighting_State_Machine/raspberry_pi_controller/led_controller.py:471-491 | the hue is an angle: `h` and `h + 360` give the same colour |
| Color.HsvGrey | Lighting_State_Machine/raspberry_pi_controller/led_controller.py:471-491 | with saturation 0 the colour is the grey `int(v*255)` on all channels, for any hue |
| Color.HsvPrimaries | Lighting_State_Machine/raspberry_pi_controller/led_controller.py:471-491 | hues 0, 120 and 240 at full saturation and value are pure red, green and blue |
| Feathering.FrequencySections | Lighting_State_Machine/raspberry_pi_controller/led_controller.py:407-415 | for every length `n` the section boundaries are ordered from 0 to `n`; adjacent sections share boundaries; each boundary is `int(n*p)` for its percentage |
| Feathering.FeatherZone | Lighting_State_Machine/raspberry_pi_controller/led_controller.py:423 | the feather half-width is at least one LED |
| Feathering.Factor | Lighting_State_Machine/raspberry_pi_controller/led_controller.py:443-444 | the feather factor inside a window lies in [0, 1) |
| Feathering.BlendBetween | Lighting_State_Machine/raspberry_pi_controller/led_controller.py:445 | a blend with a factor in [0, 1] is at least any common lower bound of its two ends |
| Feathering.FrequencyBrightness | Lighting_State_Machine/raspberry_pi_controller/led_controller.py:417-469 | the brightness never exceeds 1.0; it is at least 0.3 when the levels are non-negative; it equals `min(1, 0.3 + 0.7*level)` everywhere when all three levels are equal |
| Feathering.SectionInterior | Lighting_State_Machine/raspberry_pi_controller/led_controller.py:425-437 | outside every feather window an LED shows exactly its own section's brightness |
| Feathering.FeatherUpperHalfIsFlat | Lighting_State_Machine/raspberry_pi_controller/led_controller.py:440-445 | feathering is one-sided: just above the first boundary the mid brightness is blended with itself and shown unchanged |
| Feathering.BassOnlyScenario | Lighting_State_Machine/raspberry_pi_controller/led_controller.py:417-469 | on an 800-LED strip with bass 1 and mid and high 0, LEDs 240..559 are at full brightness and LEDs 0..59 and 740..799 at 0.3 |
| Fire.Cool | Lighting_State_Machine/raspberry_pi_controller/led_controller.py:577-578 | cooling keeps the length, keeps heat in [0, 255] and never raises a cell |
| Fire.DiffuseCell | Lighting_State_Machine/raspberry_pi_controller/led_controller.py:581-590 | a diffused cell stays in [0, 255]; without reheat it is at most the mean of its window |
| Fire.Diffuse | Lighting_State_Machine/raspberry_pi_controller/led_controller.py:580-592 | diffusion keeps the length and keeps heat in [0, 255] |
| Fire.Spark | Lighting_State_Machine/raspberry_pi_controller/led_controller.py:594-597 | a spark changes only the drawn cell, never lowers it, and changes nothing when the roll is 120 or more |
| Fire.FireStep | Lighting_State_Machine/raspberry_pi_controller/led_controller.py:571-597 | one fire step with draws in their source ranges keeps the length and keeps every heat in [0, 255] |
| Fire.HeatColor | Lighting_State_Machine/raspberry_pi_controller/led_controller.py:599-613 | the ramp gives bytes with red ≥ green ≥ blue whose channel sum is three times the heat |
| Fire.HeatColorMonotone | Lighting_State_Machine/raspberry_pi_controller/led_controller.py:599-613 | a hotter cell is at least as bright in every channel |
| Fire.HeatColorEnds | Lighting_State_Machine/raspberry_pi_controller/led_controller.py:599-613 | heat 0 is black, heat 255 is white, and heat below 85 is `(3h, 0, 0)` |
| Fire.HeatColors | Lighting_State_Machine/raspberry_pi_controller/led_controller.py:599-615 | one pixel per cell, whose channel sum is three times that cell's heat |
| Fire.DiffusionDoesNotHeat | Lighting_State_Machine/raspberry_pi_controller/led_controller.py:580-592 | without reheat the total heat of the strip never grows under diffusion |
| Twinkle.TwinkleCell | Lighting_State_Machine/raspberry_pi_controller/led_controller.py:666-680 | a sparking pixel (roll below 20) stores the drawn level and shows the drawn hue at full saturation and value; otherwise a lit pixel fades by 20 toward 0 and shows the grey of its new level; the level stays in [0, 255] |
| Twinkle.HsvGreyLevel | Lighting_State_Machine/raspberry_pi_controller/led_controller.py:676-677 | `hsv_to_rgb(0, 0, t/255)` is the grey of level `t` |
| Twinkle.TwinkleFrame | Lighting_State_Machine/raspberry_pi_controller/led_controller.py:661-682 | the frame updates every pixel independently by the per-pixel rule and keeps levels in [0, 255] |
| Twinkle.QuietRun | Lighting_State_Machine/raspberry_pi_controller/led_controller.py:672-678 | any run of frames keeps a pixel's level in [0, 255] |
| Twinkle.QuietDecay | Lighting_State_Machine/raspberry_pi_controller/led_controller.py:672-678 | after `k` frames without a spark the level is `max(0, level - 20k)` |
| Twinkle.DarkAfterThirteen | Lighting_State_Machine/raspberry_pi_controller/led_controller.py:672-678 | thirteen frames without a spark darken any pixel completely |
| Patterns.ScaleChannel | Lighting_State_Machine/raspberry_pi_controller/led_controller.py:750-753 | `int(base * brightness)` for a brightness in [0, 1] is a byte no larger than the base |
| Patterns.ScaleChannelMonotone | Lighting_State_Machine/raspberry_pi_controller/led_controller.py:750-753 | a higher brightness never gives a dimmer channel |
| Patterns.ReactivePixel | Lighting_State_Machine/raspberry_pi_controller/led_controller.py:747-755 | with music, LED `i` is its base colour scaled by the feathered brightness of its position (`FrequencyBrightness`), which keeps every channel between 30 % and 100 % of the base |
| Patterns.BassOnlyReactive | Lighting_State_Machine/raspberry_pi_controller/led_controller.py:731-763 | on an 800-LED colour-reactive strip with only bass, LEDs 240..559 show the base colour itself and LEDs 0..59 and 740..799 the base at 30 % |
| Patterns.ColorReactive | Lighting_State_Machine/raspberry_pi_controller/led_controller.py:731-763 | one pixel per LED; without music every pixel is the base colour; with music pixel `i` is the base scaled by the feathered brightness at `i`, so within [30 %, 100 %] of the base |
| Patterns.WhitePixel | Lighting_State_Machine/raspberry_pi_controller/led_controller.py:512-515 | a music-mode white pixel is the reactive pixel of base white: grey, at least 76 |
| Patterns.ModeWhite | Lighting_State_Machine/raspberry_pi_controller/led_controller.py:493-521 | one grey pixel per LED; full white without music; with music pixel `i` is white scaled by the feathered brightness at `i`, at least level 76 |
| Patterns.SolidColor | Lighting_State_Machine/raspberry_pi_controller/led_controller.py:523-559 | one pixel per LED: without music exactly the hue's full colour; with music pixel `i` is that colour scaled by the feathered brightness at `i`, within [30 %, 100 %] |
| Patterns.Rainbow | Lighting_State_Machine/raspberry_pi_controller/led_controller.py:561-569 | pixel `i` is the fully saturated colour of hue `(hue + 360 i / n) mod 360`, so the hues spread evenly over the strip; its brightest channel is 255 and its dimmest 0 |
| Patterns.RainbowThirds | Lighting_State_Machine/raspberry_pi_controller/led_controller.py:561-569 | with hue 0 on a strip whose length is a multiple of three, the LED a third of the way along is pure green and the one two thirds along pure blue |
| Patterns.RainbowStartsRed | Lighting_State_Machine/raspberry_pi_controller/led_controller.py:561-569 | with hue 0 the first pixel is pure red |
| Patterns.SampleValue | Lighting_State_Machine/raspberry_pi_controller/led_controller.py:690-692 | a sine sample divided by 255 and scaled back by the colour conversion is the sample itself |
| Patterns.Wave | Lighting_State_Machine/raspberry_pi_controller/led_controller.py:684-695 | each pixel's brightest channel is its wave sample and its dimmest is 0 |
| Patterns.Breathing | Lighting_State_Machine/raspberry_pi_controller/led_controller.py:718-729 | the whole strip is one colour whose brightest channel is the breath sample |
| Patterns.ChasePos | Lighting_State_Machine/raspberry_pi_controller/led_controller.py:703 | the head position is a valid LED index |
| Patterns.ChaseAdvances | Lighting_State_Machine/raspberry_pi_controller/led_controller.py:703 | the head moves one LED, wrapping, every two frames |
| Patterns.ChaseNeighbours | Lighting_State_Machine/raspberry_pi_controller/led_controller.py:704-713 | on a strip of three or more LEDs the head and its two followers are distinct |
| Patterns.Chase | Lighting_State_Machine/raspberry_pi_controller/led_controller.py:697-716 | a pixel is lit exactly when it is the head or one of its two followers; the head has the hue's full colour, the first follower that hue at value 0.5 and the second at value 0.25 |
| Patterns.Lerp | Lighting_State_Machine/raspberry_pi_controller/led_controller.py:642-644 | an interpolated channel lies between the two stop values, and equals them when they agree |
| Patterns.Gradient | Lighting_State_Machine/raspberry_pi_controller/led_controller.py:634-646 | intensity 0 gives the first stop (green) and 255 the last (pink) |
| Patterns.Combined | Lighting_State_Machine/raspberry_pi_controller/led_controller.py:630 | the combined wave of three samples in [0, 255] is in [0, 255] |
| Patterns.Jitter | Lighting_State_Machine/raspberry_pi_controller/led_controller.py:649-655 | a jittered and clamped channel is a byte within 12 of the original |
| Patterns.Aurora | Lighting_State_Machine/raspberry_pi_controller/led_controller.py:619-659 | each stored intensity is in [0, 255]; each pixel is within 12 per channel of the gradient colour of its intensity |
| Audio.ReduceBands | Lighting_State_Machine/raspberry_pi_controller/led_controller.py:232-234 | slots 0..2 become the means of band pairs and lie between them; slots 3..7 are untouched |
| Audio.ReduceKeepsNonNegative | Lighting_State_Machine/raspberry_pi_controller/led_controller.py:232-234 | non-negative bands stay non-negative after the reduction |
| Encoder.EncoderCallback | Lighting_State_Machine/raspberry_pi_controller/led_controller.py:287-331 | an edge inside the 5 ms debounce only restamps; otherwise, with `c` the accumulator after the edge, the button held gives brightness up exactly when `c >= 1` and down exactly when `c <= -1`, the button up gives mode up exactly when `c >= 2` and down exactly when `c <= -2`, with the value wrapping in 0..16; without an action `c` is kept and the stamp taken; a held edge during a press marks it rotated; no other field changes |
| Encoder.ButtonCallback | Lighting_State_Machine/raspberry_pi_controller/led_controller.py:333-354 | a debounced low edge starts a press (start time and stamp set to now, rotation flag and released cleared, pressed set) and changes nothing else; a debounced high edge after a started press records its duration, sets released and the stamp and changes nothing else; a bounce changes nothing |
| Encoder.GetEncoderAction | Lighting_State_Machine/raspberry_pi_controller/led_controller.py:356-376 | a toggle is returned exactly when a released press without rotation lasted over 100 ms; the release is consumed either way; otherwise a pending press, otherwise the rotation callback at poll time. A toggle changes only the release flag, press start and rotation flag, and a reported press only clears the pressed flag after consuming any release; every other encoder field is unchanged |
| Encoder.TwoEdgesOneModeStep | Lighting_State_Machine/raspberry_pi_controller/led_controller.py:295-328 | with the button up a lone edge emits nothing and the second same-direction edge emits one mode step and clears the counter |
| Encoder.HeldEdgeAdjustsBrightness | Lighting_State_Machine/raspberry_pi_controller/led_controller.py:295-314 | with the button held during a press, a debounced edge leaves the accumulator at 0 and marks the press as rotated; it is a brightness step in its direction unless it cancels a pending opposite step, and always is one from a rested accumulator |
| Encoder.OppositeEdgesCancel | Lighting_State_Machine/raspberry_pi_controller/led_controller.py:295-328 | with the button up, an edge and then an edge the other way emit nothing and leave the accumulator and mode value as they were |
| Encoder.ModeValueWraps | Lighting_State_Machine/raspberry_pi_controller/led_controller.py:317-328 | mode up from 16 gives 0, mode down from 0 gives 16, and 17 is never produced |
| Encoder.PressReleaseToggles | Lighting_State_Machine/raspberry_pi_controller/led_controller.py:333-367 | a press released more than 200 ms later, with no rotation and no poll while the button is down, yields a toggle on the next poll |
| Encoder.PolledPressNeverToggles | Lighting_State_Machine/raspberry_pi_controller/led_controller.py:356-376 | a poll during a press reports the press, the next debounced poll runs the rotation callback with the button held and marks the press rotated, and the release more than 200 ms after the press then never toggles |
| Encoder.PollIntended | Lighting_State_Machine/raspberry_pi_controller/led_controller.py:356-376 | the poll with its own pin sample not counted as a rotation during a press: the same action as the poll as written, a toggle exactly when one is pending, and the rotation flag unchanged |
| Encoder.PollsKeepOpenPress | Lighting_State_Machine/raspberry_pi_controller/led_controller.py:356-376 | intended polls leave an open press open, unrotated, with its start time and debounce stamp |
| Encoder.IntendedPressToggles | Lighting_State_Machine/raspberry_pi_controller/led_controller.py:333-367 | with the intended poll, a press released more than 200 ms later without a rotation edge toggles music mode, whatever polls fall inside it |
| Encoder.ShortPressNeverToggles | Lighting_State_Machine/raspberry_pi_controller/led_controller.py:337-372 | a release within 200 ms of the press is debounced away, and the next poll reports a plain press |
| Encoder.RotationSuppressesToggle | Lighting_State_Machine/raspberry_pi_controller/led_controller.py:304-367 | turning the knob during a press suppresses the toggle on release |
| Encoder.IdlePollsChangeMode | Lighting_State_Machine/raspberry_pi_controller/led_controller.py:356-376 | two idle polls with the button up emit a mode step even though no edge occurred |
| Controller.LedCount | Lighting_State_Machine/raspberry_pi_controller/led_controller.py:23 | every strip has at least one LED |
| Controller.Init | Lighting_State_Machine/raspberry_pi_controller/led_controller.py:66-84 | the initial state satisfies every state invariant, with mode 0, brightness 255 and all strips active |
| Controller.RefreshLevels | Lighting_State_Machine/raspberry_pi_controller/led_controller.py:501-509 | the bass, mid and high levels become bands 0, 1 and 2, or 0.0 where the band list is too short; the invariants hold |
| Controller.ReactiveState | Lighting_State_Machine/raspberry_pi_controller/led_controller.py:499-509 | the state a music-reactive renderer leaves satisfies the invariants |
| Controller.RenderMode | Lighting_State_Machine/raspberry_pi_controller/led_controller.py:771-803 | every mode value renders exactly one pixel per LED of the strip |
| Controller.CalculateLedData | Lighting_State_Machine/raspberry_pi_controller/led_controller.py:765-803 | one pixel per LED for every mode; an inactive strip is all black and leaves the state alone; the invariants hold; mode, brightness, hue, step and other strips' arrays are unchanged; in fire mode each pixel's channel sum is three times the stored heat |
| Controller.FallbackIsWhite | Lighting_State_Machine/raspberry_pi_controller/led_controller.py:765-803 | modes 11, 12 and every out-of-range value render exactly as mode 0 |
| Controller.WhiteWithoutMusic | Lighting_State_Machine/raspberry_pi_controller/led_controller.py:517-519 | white mode without music lights every LED full white |
| Controller.UpdateAnimationState | Lighting_State_Machine/raspberry_pi_controller/led_controller.py:826-836 | the step advances by one; hue advances modulo 360 only in modes 7, 8, 14, 15 and 16; the aurora phase advances modulo 1000 only in mode 10; nothing else changes |
| Controller.Ticks | Lighting_State_Machine/raspberry_pi_controller/led_controller.py:826-836 | repeated updates keep the invariants and the mode |
| Controller.HueTurns | Lighting_State_Machine/raspberry_pi_controller/led_controller.py:830-832 | after `k` updates in a colour-cycling mode the hue is `(hue + k) % 360` and the step has grown by `k` |
| Controller.HueFullTurns | Lighting_State_Machine/raspberry_pi_controller/led_controller.py:830-832 | every multiple of 360 updates restores the hue |
| Controller.HandleEncoderInput | Lighting_State_Machine/raspberry_pi_controller/led_controller.py:862-882 | mode steps give `(mode ± 1) % 17` in 0..16 from any mode; brightness steps move by 12, clamped to [0, 255]; only a toggle flips music mode; a press or no action changes nothing |
| Controller.ModeStepsInverse | Lighting_State_Machine/raspberry_pi_controller/led_controller.py:866-871 | mode down undoes mode up, and the reverse, for every mode in 0..16 |
| Controller.ModeUps | Lighting_State_Machine/raspberry_pi_controller/led_controller.py:866-868 | any number of mode-up steps keeps the invariants |
| Controller.ModeUpsTurn | Lighting_State_Machine/raspberry_pi_controller/led_controller.py:866-868 | `k` mode-up steps give `(mode + k) % 17` |
| Controller.ModeUpCycle | Lighting_State_Machine/raspberry_pi_controller/led_controller.py:866-868 | seventeen mode-up steps return to the starting mode |
| Controller.BrightnessStepsInverse | Lighting_State_Machine/raspberry_pi_controller/led_controller.py:872-877 | brightness down undoes an unclamped brightness up |
| Controller.ToggleMusic | Lighting_State_Machine/raspberry_pi_controller/led_controller.py:904-906 | music mode is negated and nothing else changes |
| Controller.SetMode | Lighting_State_Machine/raspberry_pi_controller/led_controller.py:884-887 | any integer is stored as the mode and nothing else changes |
| Controller.SetModeOutOfRangeRendersWhite | Lighting_State_Machine/raspberry_pi_controller/led_controller.py:765-803 | after storing mode 11, mode 12 or any value outside 0..16, every strip renders exactly as after storing mode 0 |
| Controller.SetBrightness | Lighting_State_Machine/raspberry_pi_controller/led_controller.py:889-892 | the brightness becomes the value clamped to [0, 255], taken exactly when in range; nothing else changes |
| Controller.SetBrightnessIdempotent | Lighting_State_Machine/raspberry_pi_controller/led_controller.py:889-892 | setting the same brightness twice equals setting it once |
| Controller.SetStripActive | Lighting_State_Machine/raspberry_pi_controller/led_controller.py:894-898 | an index outside 0..2 is ignored; otherwise only that strip's flag changes |
| Controller.DeactivatedStripIsBlack | Lighting_State_Machine/raspberry_pi_controller/led_controller.py:765-768 | after deactivating a strip its frame is all black, whatever the mode |
| Packet.Serialize | Lighting_State_Machine/raspberry_pi_controller/led_controller.py:816-817 | three bytes per pixel, with pixel `i`'s red, green and blue at `3i`, `3i+1` and `3i+2` |
| Packet.Deserialize | build/sketch/esp32_receiver.ino.cpp:157-166 | the reader takes each byte triple as one pixel, in order |
| Packet.DeserializeSerialize | Lighting_State_Machine/raspberry_pi_controller/led_controller.py:816-817 | reading the serialized bytes gives back the pixels |
| Packet.SerializeDeserialize | build/sketch/esp32_receiver.ino.cpp:157-166 | any whole number of triples is rebuilt exactly by serializing what was read |
| Packet.EncodePacket | Lighting_State_Machine/raspberry_pi_controller/led_controller.py:805-824 | a datagram exists exactly when the strip has an open socket and the id and brightness are bytes; it has length `2 + 3n`, byte 0 is the strip, byte 1 the brightness, and the rest decodes to the pixels |
| Packet.TestPattern | Lighting_State_Machine/raspberry_pi_controller/test_connection.py:30-44 | 1000 pixels: red, green, blue and white, then black |
| Packet.TestPacket | Lighting_State_Machine/raspberry_pi_controller/test_connection.py:26-44 | a datagram exists exactly when the id is a byte; it has 3002 bytes, the id, brightness 255, then the test pattern |
| Packet.TestBodyDecodes | Lighting_State_Machine/raspberry_pi_controller/test_connection.py:38-44 | the twelve colour bytes and 2988 zero bytes read back as the test pattern |
| Receiver.HandleIncomingPacket | build/sketch/esp32_receiver.ino.cpp:125-176 | fewer than 3 bytes or a foreign id change nothing; otherwise the brightness is byte 1; LEDs change only with a full frame, which sets LED `i` to bytes `2+3i..4+3i` |
| Receiver.Elapsed | build/sketch/esp32_receiver.ino.cpp:87 | `millis() - lastPacketTime` in 32-bit unsigned arithmetic is the true interval, across a counter wrap too |
| Receiver.LoopStep | build/sketch/esp32_receiver.ino.cpp:68-98 | a datagram is handled and stamped even if rejected; silence over 5000 ms after a stamp blanks the LEDs, keeps the brightness and clears the stamp; otherwise nothing changes |
| Receiver.SilentRun | build/sketch/esp32_receiver.ino.cpp:86-94 | any run of silent loop passes keeps the receiver state well formed |
| Receiver.SilenceIsStable | build/sketch/esp32_receiver.ino.cpp:86-94 | once the stamp is cleared, silent passes never blank or change anything again |
| Receiver.TimeoutSurvivesWrap | build/sketch/esp32_receiver.ino.cpp:87 | a stamp 1000 ms before the counter wraps is not stale 3000 ms after the wrap |
| AnimationLoop.SendStrips | Lighting_State_Machine/raspberry_pi_controller/led_controller.py:849-852 | the first frame is `calculate_led_data` of strip `s` from the given state; each strip gets a frame of its length and, exactly when its socket is open, a datagram of its id, the brightness and that frame; the hue and aurora phase are untouched |
| AnimationLoop.SendStripsTail | Lighting_State_Machine/raspberry_pi_controller/led_controller.py:849-852 | strips are rendered in order: after strip `s`, the frames, datagrams and final controller are those of the send from strip `s + 1` started from the state strip `s` left |
| AnimationLoop.Tick | Lighting_State_Machine/raspberry_pi_controller/led_controller.py:838-860 | one loop pass takes exactly the polled action and encoder state, applies that action to brightness, music mode and strip flags, renders strip 0 from the resulting state, delivers every strip's frame as above and advances the step by one, keeping all invariants |
| AnimationLoop.TickAdvancesAnimation | Lighting_State_Machine/raspberry_pi_controller/led_controller.py:826-860 | after one loop pass the hue and aurora phase are exactly those `update_animation_state` gives the state the polled action produced |
| Wire.Configured | build/sketch/esp32_receiver.ino.cpp:8-10 | a receiver built for strip `s` has id `s` and the controller's LED count for `s` |
| Wire.RoundTrip | build/sketch/esp32_receiver.ino.cpp:125-166 | a datagram for the receiver's id with one pixel per LED sets exactly that brightness and those pixels |
| Wire.ShortFrameKeepsLeds | build/sketch/esp32_receiver.ino.cpp:145-155 | a frame with fewer pixels than LEDs leaves every LED unchanged and, when it carries at least one pixel, sets the brightness |
| Wire.FlashedReceiverIgnoresStripZeroFrames | Lighting_State_Machine/raspberry_pi_controller/led_controller.py:23 | the receiver as built (strip 0, 1000 LEDs) never shows strip 0's 800-pixel frames |
| Wire.OtherStripIgnored | build/sketch/esp32_receiver.ino.cpp:139-142 | a datagram for another strip leaves the receiver unchanged |
| Wire.ConfiguredReceiversShowFrames | Lighting_State_Machine/raspberry_pi_controller/led_controller.py:849-852 | with each receiver built for its strip, one loop pass puts exactly the rendered frame and the brightness on every strip with an open socket |
| Wire.TestPacketShowsPattern | Lighting_State_Machine/raspberry_pi_controller/test_connection.py:26-44 | the flashed receiver accepts the strip-0 test datagram and shows exactly the test pattern at brightness 255 |

## Left out

- FFT, windowing, RMS level and the audio thread: floating-point numpy code and concurrency. The band list and audio level a frame reads are parameters; only the three-slot reduction is modelled.
- `random.randint`, `math.sin` and `time.time`: their results are parameters bounded as the source bounds them.
- GPIO setup and edge registration: which edges invoke the callbacks (and GPIO's own bouncetime) is not modelled. The callbacks are taken as invoked at given times with given pin levels.
- The button pin is registered for falling edges only, so a clean release never runs the button callback: every `Encoder.ButtonCallback` call with the pin high stands for a bounce, not a release the hardware reports.
- The encoder and button callbacks run on the GPIO event thread and share `button_released`, `button_press_start_time`, `encoder_step_counter` and `rotation_during_press` with the poll on the main thread without a lock. The model takes each callback and each poll as one atomic step; interleavings inside them and lost updates are not modelled.
- Sockets, `sendto` and its exceptions, WiFi (re)connection, `FastLED.show`, serial output, the 50 ms sleep and the text console: I/O and timing.
- Packet.EncodePacket: a `sendto` failure (caught, returns False) is not modelled, because it depends on the network; the function returns the datagram handed to the socket.
- Receiver.LoopStep: both `millis()` reads in one pass take the same value, and the loop pass with WiFi down is not modelled.
- Feathering.FeatherZone: the feather half-width is `max(1, n / 20)` over integers rather than `int(n * 0.05)` over floats. They agree for the strip lengths used (800, 900, 1000).
- Floats are modelled as exact reals, so the model can differ from the program where binary rounding moves an `int()` across an integer.
- Encoder and controller times are integer milliseconds; the source uses float milliseconds.
- The second copy of the sketch in the build file, and the other sketches, tools and configuration files of the repository are not part of this model.

## Findings

| source | as written | input that shows it | evidently intended | confidence | as-written member | corrected member |
|---|---|---|---|---|---|---|
| Lighting_State_Machine/raspberry_pi_controller/led_controller.py:23 | The controller sends 800 and 900 pixels for strips 0 and 1. The receiver is built with `NUM_LEDS 1000` and drops the LED data of any datagram shorter than `2 + 3*1000` bytes (build/sketch/esp32_receiver.ino.cpp:8, 152-155). | Strip 0 in any mode: its 2402-byte datagram (800 pixels) sets the receiver's brightness but never changes an LED | Each receiver is built with the LED count of its own strip, so that every frame is shown | high; not executed | Wire.FlashedReceiverIgnoresStripZeroFrames | Wire.ConfiguredReceiversShowFrames |
| Lighting_State_Machine/raspberry_pi_controller/led_controller.py:375 | `get_encoder_action` ends by calling `_encoder_callback(None)`, which samples the pins as if an edge had occurred. With the button held and a press open, that marks the press as rotated (:304-305). The loop polls every 50 ms (:52, :859), so a press long enough to pass the 200 ms release debounce always contains such a poll. | Press at time t, polls at t + 50 and t + 100, release at t + 250: the poll after the release returns no `toggle_music_mode` | Only a rotation edge during the press suppresses the toggle, so a plain press of over 100 ms toggles music mode. The falling-edge-only registration of the button pin (:283) also has to report releases | medium; not executed | Encoder.PolledPressNeverToggles | Encoder.IntendedPressToggles |
