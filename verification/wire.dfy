/** The two ends of the UDP link together: what a receiver shows after handling
    a datagram the controller (or the connection test) sent. */
module Wire {
  import opened Common
  import opened Packet
  import opened Receiver
  import Controller
  import Encoder
  import opened AnimationLoop

  /** A receiver built for strip `s`, with the LED count the controller uses
      for that strip. */
  function Configured(s: int): (fw: Firmware)
    requires 0 <= s < Controller.NumStrips
    ensures fw.stripId == s && fw.numLeds == Controller.LedCount(s)
  {
    Firmware(s, Controller.LedCount(s))
  }

  /** A datagram encoded for a receiver's own strip id, with exactly one pixel
      per LED, sets that receiver's brightness and every LED to the frame (a
      receiver with no LEDs would drop the two-byte datagram as too short). */
  lemma RoundTrip(fw: Firmware, rx: ReceiverState, brightness: int, px: seq<Pixel>, sockets: seq<bool>)
    requires Receiver.Valid(fw, rx) && |px| == fw.numLeds > 0
    requires EncodePacket(fw.stripId, brightness, px, sockets).Some?
    ensures var rx' := HandleIncomingPacket(fw, rx, EncodePacket(fw.stripId, brightness, px, sockets).value);
      rx'.brightness == brightness && rx'.leds == px
  {
    var d := EncodePacket(fw.stripId, brightness, px, sockets).value;
    var rx' := HandleIncomingPacket(fw, rx, d);
    assert Complete(fw, d);
    forall i | 0 <= i < |px|
      ensures rx'.leds[i] == px[i]
    {
      assert Deserialize(d[2..])[i] == Pixel(d[2..][3 * i], d[2..][3 * i + 1], d[2..][3 * i + 2]);
    }
  }

  /** A datagram carrying fewer pixels than a receiver has LEDs leaves every
      LED as it was; it still sets the brightness unless it has no pixel at all. */
  lemma ShortFrameKeepsLeds(fw: Firmware, rx: ReceiverState, brightness: int, px: seq<Pixel>, sockets: seq<bool>)
    requires Receiver.Valid(fw, rx) && |px| < fw.numLeds
    requires EncodePacket(fw.stripId, brightness, px, sockets).Some?
    ensures var rx' := HandleIncomingPacket(fw, rx, EncodePacket(fw.stripId, brightness, px, sockets).value);
      rx'.leds == rx.leds && (|px| > 0 ==> rx'.brightness == brightness)
  {
  }

  /** As flashed (strip 0, 1000 LEDs), a receiver never shows what the
      controller renders for strip 0: the 800-pixel datagram only changes its
      brightness. */
  lemma FlashedReceiverIgnoresStripZeroFrames(rx: ReceiverState, brightness: int, px: seq<Pixel>, sockets: seq<bool>)
    requires Receiver.Valid(Flashed, rx) && |px| == Controller.LedCount(0)
    requires EncodePacket(0, brightness, px, sockets).Some?
    ensures var rx' := HandleIncomingPacket(Flashed, rx, EncodePacket(0, brightness, px, sockets).value);
      rx'.leds == rx.leds && rx'.brightness == brightness
  {
    ShortFrameKeepsLeds(Flashed, rx, brightness, px, sockets);
  }

  /** A datagram addressed to another strip leaves the receiver untouched. */
  lemma OtherStripIgnored(fw: Firmware, rx: ReceiverState, strip: nat, brightness: int, px: seq<Pixel>, sockets: seq<bool>)
    requires Receiver.Valid(fw, rx) && strip != fw.stripId
    requires EncodePacket(strip, brightness, px, sockets).Some?
    ensures HandleIncomingPacket(fw, rx, EncodePacket(strip, brightness, px, sockets).value) == rx
  {
  }

  /** With each receiver configured for its strip, one pass of the animation
      loop puts exactly the rendered frame and the brightness on every strip
      that has an open socket. */
  lemma ConfiguredReceiversShowFrames(c: Controller.Controller, enc: Encoder.EncoderState, now: int, pins: Encoder.Pins,
                                       inputs: seq<Controller.FrameInputs>, sockets: seq<bool>,
                                       s: int, rx: ReceiverState)
    requires Controller.ValidController(c) && Encoder.Valid(enc) && ValidFrameInputs(inputs)
    requires 0 <= s < Controller.NumStrips && s < |sockets| && sockets[s]
    requires Receiver.Valid(Configured(s), rx)
    ensures var t := Tick(c, enc, now, pins, inputs, sockets);
      && t.datagrams[s].Some?
      && var rx' := HandleIncomingPacket(Configured(s), rx, t.datagrams[s].value);
      && rx'.leds == t.frames[s]
      && rx'.brightness == t.controller.state.brightness
  {
    var t := Tick(c, enc, now, pins, inputs, sockets);
    assert Delivered(s, t.controller.state.brightness, t.controller.stripActive[s], sockets, t.frames[s], t.datagrams[s]);
    var fw := Configured(s);
    var d := t.datagrams[s].value;
    var rx' := HandleIncomingPacket(fw, rx, d);
    assert Complete(fw, d);
    forall i | 0 <= i < fw.numLeds
      ensures rx'.leds[i] == t.frames[s][i]
    {
      assert Deserialize(d[2..])[i] == Pixel(d[2..][3 * i], d[2..][3 * i + 1], d[2..][3 * i + 2]);
    }
  }

  /** The connection test's datagram for strip 0 drives the flashed receiver to
      full brightness with red, green, blue and white on LEDs 0..3 and the rest
      dark. */
  lemma TestPacketShowsPattern(rx: ReceiverState)
    requires Receiver.Valid(Flashed, rx)
    ensures TestPacket(0).Some?
    ensures var rx' := HandleIncomingPacket(Flashed, rx, TestPacket(0).value);
      rx'.brightness == 255 && rx'.leds == TestPattern()
  {
    var d := TestPacket(0).value;
    var rx' := HandleIncomingPacket(Flashed, rx, d);
    var want := TestPattern();
    assert Complete(Flashed, d);
    forall i | 0 <= i < 1000
      ensures rx'.leds[i] == want[i]
    {
      assert Deserialize(d[2..])[i] == Pixel(d[2..][3 * i], d[2..][3 * i + 1], d[2..][3 * i + 2]);
    }
  }
}
