/** One pass of `run_animation_loop` without the sleep: poll the encoder and
    apply its action, render and send a frame for each strip in order, then
    advance the animation state. */
module AnimationLoop {
  import opened Common
  import opened Encoder
  import opened Controller
  import opened Packet

  predicate ValidFrameInputs(inputs: seq<FrameInputs>)
  {
    |inputs| == NumStrips && forall s :: 0 <= s < NumStrips ==> ValidInputs(inputs[s], LedCount(s))
  }

  datatype Sent = Sent(controller: Controller, frames: seq<seq<Pixel>>, datagrams: seq<Option<seq<byte>>>)

  /** What strip `s` got in one pass: a frame of its own length (black when the
      strip is off) and, exactly when it has an open socket, a datagram carrying
      its id, the brightness and that frame. */
  predicate Delivered(s: nat, brightness: int, active: bool, sockets: seq<bool>,
                      frame: seq<Pixel>, datagram: Option<seq<byte>>)
    requires s < NumStrips
  {
    && |frame| == LedCount(s)
    && (!active ==> AllBlack(frame))
    && (datagram.Some? <==> s < |sockets| && sockets[s])
    && (datagram.Some? ==>
          && |datagram.value| == 2 + 3 * LedCount(s)
          && datagram.value[0] == s
          && datagram.value[1] == brightness
          && Deserialize(datagram.value[2..]) == frame)
  }

  /** The delivery facts for strips `s + 1`... extend to `s` when strip `s`'s own
      frame and datagram are put in front. */
  lemma PrependDelivered(s: nat, brightness: int, active: seq<bool>, sockets: seq<bool>,
                         frame: seq<Pixel>, datagram: Option<seq<byte>>,
                         frames: seq<seq<Pixel>>, datagrams: seq<Option<seq<byte>>>)
    requires s < NumStrips && |active| == NumStrips
    requires |frames| == NumStrips - s - 1 && |datagrams| == NumStrips - s - 1
    requires Delivered(s, brightness, active[s], sockets, frame, datagram)
    requires forall j :: 0 <= j < NumStrips - (s + 1) ==>
      Delivered(s + 1 + j, brightness, active[s + 1 + j], sockets, frames[j], datagrams[j])
    ensures forall j :: 0 <= j < NumStrips - s ==>
      Delivered(s + j, brightness, active[s + j], sockets, ([frame] + frames)[j], ([datagram] + datagrams)[j])
  {
    forall j | 0 <= j < NumStrips - s
      ensures Delivered(s + j, brightness, active[s + j], sockets, ([frame] + frames)[j], ([datagram] + datagrams)[j])
    {
      if j > 0 {
        assert s + j == s + 1 + (j - 1);
      }
    }
  }

  /** Strips `s`, `s + 1`, ..., 2 in turn: each frame is computed from the state
      the previous strip left behind and sent with the current brightness. */
  function SendStrips(c: Controller, inputs: seq<FrameInputs>, sockets: seq<bool>, s: nat): (r: Sent)
    requires ValidController(c) && ValidFrameInputs(inputs) && s <= NumStrips
    ensures ValidController(r.controller)
    ensures |r.frames| == NumStrips - s && |r.datagrams| == NumStrips - s
    ensures r.controller.state.mode == c.state.mode && r.controller.state.brightness == c.state.brightness
    ensures r.controller.state.hue == c.state.hue && r.controller.state.step == c.state.step
    ensures r.controller.state.auroraPhase == c.state.auroraPhase
    ensures r.controller.stripActive == c.stripActive && r.controller.musicMode == c.musicMode
    ensures forall j :: 0 <= j < NumStrips - s ==>
      Delivered(s + j, c.state.brightness, c.stripActive[s + j], sockets, r.frames[j], r.datagrams[j])
    ensures s < NumStrips ==> r.frames[0] == CalculateLedData(c, s, inputs[s]).pixels
    decreases NumStrips - s
  {
    if s == NumStrips then Sent(c, [], [])
    else
      var f := CalculateLedData(c, s, inputs[s]);
      var packet := EncodePacket(s, c.state.brightness, f.pixels, sockets);
      assert Delivered(s, c.state.brightness, c.stripActive[s], sockets, f.pixels, packet);
      var rest := SendStrips(c.(state := f.state), inputs, sockets, s + 1);
      PrependDelivered(s, c.state.brightness, c.stripActive, sockets, f.pixels, packet, rest.frames, rest.datagrams);
      Sent(rest.controller, [f.pixels] + rest.frames, [packet] + rest.datagrams)
  }

  /** Strips are rendered in order: past its first frame (strip `s` rendered
      from `c`'s state), a send from strip `s` is the send from strip `s + 1`
      started from the state strip `s` left behind. */
  lemma SendStripsTail(c: Controller, inputs: seq<FrameInputs>, sockets: seq<bool>, s: nat)
    requires ValidController(c) && ValidFrameInputs(inputs) && s < NumStrips
    ensures var c1 := c.(state := CalculateLedData(c, s, inputs[s]).state);
      var rest := SendStrips(c1, inputs, sockets, s + 1);
      var r := SendStrips(c, inputs, sockets, s);
      r.frames[1..] == rest.frames && r.datagrams[1..] == rest.datagrams && r.controller == rest.controller
  {
  }

  datatype TickResult = TickResult(
    controller: Controller,
    encoder: EncoderState,
    action: Option<Action>,
    frames: seq<seq<Pixel>>,
    datagrams: seq<Option<seq<byte>>>)

  /** One loop pass at time `now` with encoder pin levels `pins`; `sockets[s]`
      says whether strip `s` has an open socket. */
  function Tick(c: Controller, enc: EncoderState, now: int, pins: Pins,
                inputs: seq<FrameInputs>, sockets: seq<bool>): (t: TickResult)
    requires ValidController(c) && Encoder.Valid(enc) && ValidFrameInputs(inputs)
    ensures ValidController(t.controller) && Encoder.Valid(t.encoder)
    ensures |t.frames| == NumStrips && |t.datagrams| == NumStrips
    ensures t.controller.state.step == c.state.step + 1
    ensures t.controller.state.mode == HandleEncoderInput(c, t.action).state.mode
    ensures forall s :: 0 <= s < NumStrips ==>
      Delivered(s, t.controller.state.brightness, t.controller.stripActive[s], sockets, t.frames[s], t.datagrams[s])
    ensures t.action == GetEncoderAction(enc, now, pins).action && t.encoder == GetEncoderAction(enc, now, pins).enc
    ensures var c1 := HandleEncoderInput(c, t.action);
      && t.controller.state.brightness == c1.state.brightness
      && t.controller.musicMode == c1.musicMode
      && t.controller.stripActive == c1.stripActive
      && t.frames[0] == CalculateLedData(c1, 0, inputs[0]).pixels
  {
    var poll := GetEncoderAction(enc, now, pins);
    var c1 := HandleEncoderInput(c, poll.action);
    var sent := SendStrips(c1, inputs, sockets, 0);
    var c2 := sent.controller.(state := UpdateAnimationState(sent.controller.state));
    TickResult(c2, poll.enc, poll.action, sent.frames, sent.datagrams)
  }

  /** One loop pass advances the colour-cycling hue and the aurora phase exactly
      as `update_animation_state` does for the mode the polled action selected;
      rendering the strips in between changes neither. */
  lemma TickAdvancesAnimation(c: Controller, enc: EncoderState, now: int, pins: Pins,
                              inputs: seq<FrameInputs>, sockets: seq<bool>)
    requires ValidController(c) && Encoder.Valid(enc) && ValidFrameInputs(inputs)
    ensures var t := Tick(c, enc, now, pins, inputs, sockets);
      var st := HandleEncoderInput(c, t.action).state;
      && t.controller.state.hue == UpdateAnimationState(st).hue
      && t.controller.state.auroraPhase == UpdateAnimationState(st).auroraPhase
  {
  }
}
