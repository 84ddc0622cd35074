/** The receiver firmware (`esp32_receiver`): packet acceptance and the LED
    timeout of the main loop. Each board is built with a strip id and an LED
    count; the sketch as it stands fixes both (strip 0, 1000 LEDs). */
module Receiver {
  import opened Common

  datatype Firmware = Firmware(stripId: byte, numLeds: nat)

  /** `STRIP_ID 0` and `NUM_LEDS 1000`, the values the sketch is built with. */
  const Flashed := Firmware(0, 1000)

  const TimeoutMs := 5000
  /** `millis()` and `lastPacketTime` are 32-bit unsigned values. */
  const MillisModulus := 0x1_0000_0000

  /** `packetSize`: the receive buffer holds one byte more than a full frame. */
  function PacketSize(fw: Firmware): nat { 3 + 3 * fw.numLeds }

  datatype ReceiverState = ReceiverState(brightness: byte, leds: seq<Pixel>, lastPacketTime: int)

  predicate Millis(t: int) { 0 <= t < MillisModulus }

  predicate Valid(fw: Firmware, rx: ReceiverState)
  {
    |rx.leds| == fw.numLeds && Millis(rx.lastPacketTime)
  }

  /** A datagram the firmware applies in full: long enough, addressed to it,
      and carrying at least one byte per LED channel. */
  predicate Complete(fw: Firmware, d: seq<byte>)
  {
    |d| >= 3 && d[0] == fw.stripId && |d| >= 2 + 3 * fw.numLeds
  }

  /** `handleIncomingPacket`: at most `packetSize` bytes are read; fewer than 3
      bytes or another strip's id drop the datagram; otherwise the brightness is
      taken, and the LEDs are rewritten only when a byte triple is present for
      every LED. Bytes past the frame are ignored. The per-LED guard
      `dataIndex + 2 < len` holds for every LED once the length test has
      passed, so it is left implicit. */
  function HandleIncomingPacket(fw: Firmware, rx: ReceiverState, d: seq<byte>): (rx': ReceiverState)
    requires Valid(fw, rx)
    ensures Valid(fw, rx') && rx'.lastPacketTime == rx.lastPacketTime
    ensures (|d| < 3 || d[0] != fw.stripId) ==> rx' == rx
    ensures (|d| >= 3 && d[0] == fw.stripId) ==> rx'.brightness == d[1]
    ensures !Complete(fw, d) ==> rx'.leds == rx.leds
    ensures Complete(fw, d) ==>
      forall i :: 0 <= i < fw.numLeds ==> rx'.leds[i] == Pixel(d[2 + 3 * i], d[3 + 3 * i], d[4 + 3 * i])
  {
    var len := Min(|d|, PacketSize(fw));
    if len < 3 then rx
    else if d[0] != fw.stripId then rx
    else
      var rx1 := rx.(brightness := d[1]);
      if len - 2 < 3 * fw.numLeds then rx1
      else rx1.(leds := seq(fw.numLeds, i requires 0 <= i < fw.numLeds => Pixel(d[2 + 3 * i], d[3 + 3 * i], d[4 + 3 * i])))
  }

  /** Milliseconds since the last packet, computed with unsigned 32-bit
      subtraction as `millis() - lastPacketTime` is. */
  function Elapsed(now: int, last: int): (e: int)
    requires Millis(now) && Millis(last)
    ensures Millis(e)
    ensures last <= now ==> e == now - last
    ensures now < last ==> e == now + MillisModulus - last
  {
    var e := (now - last) % MillisModulus;
    if last <= now then
      DivModUnique(now - last, MillisModulus, 0, now - last); e
    else
      DivModUnique(now - last, MillisModulus, -1, now + MillisModulus - last); e
  }

  /** One pass of `loop` with WiFi connected, at time `now` (both `millis()`
      reads take the same value). A non-empty datagram is handled and stamps the
      time whether or not it was accepted; then, if more than 5000 ms have
      passed since a stamp and a stamp exists, the LEDs are cleared and the
      stamp reset. */
  function LoopStep(fw: Firmware, rx: ReceiverState, d: seq<byte>, now: int): (rx': ReceiverState)
    requires Valid(fw, rx) && Millis(now)
    ensures Valid(fw, rx')
    ensures |d| > 0 ==> rx' == HandleIncomingPacket(fw, rx, d).(lastPacketTime := now)
    ensures |d| == 0 && rx.lastPacketTime > 0 && Elapsed(now, rx.lastPacketTime) > TimeoutMs ==>
      AllBlack(rx'.leds) && rx'.lastPacketTime == 0 && rx'.brightness == rx.brightness
    ensures |d| == 0 && (rx.lastPacketTime == 0 || Elapsed(now, rx.lastPacketTime) <= TimeoutMs) ==> rx' == rx
  {
    var rx1 := if |d| > 0 then HandleIncomingPacket(fw, rx, d).(lastPacketTime := now) else rx;
    if Elapsed(now, rx1.lastPacketTime) > TimeoutMs && rx1.lastPacketTime > 0 then
      rx1.(leds := BlackStrip(fw.numLeds), lastPacketTime := 0)
    else rx1
  }

  /** A receiver that has timed out (or never heard from the controller) stays
      unchanged through any number of silent loop passes. */
  lemma {:induction false} SilenceIsStable(fw: Firmware, rx: ReceiverState, times: seq<int>)
    requires Valid(fw, rx) && rx.lastPacketTime == 0
    requires forall k :: 0 <= k < |times| ==> Millis(times[k])
    ensures SilentRun(fw, rx, times) == rx
  {
    if |times| > 0 {
      SilenceIsStable(fw, rx, times[1..]);
    }
  }

  /** `loop` run once per entry of `times` with no datagram arriving. */
  function SilentRun(fw: Firmware, rx: ReceiverState, times: seq<int>): (rx': ReceiverState)
    requires Valid(fw, rx) && forall k :: 0 <= k < |times| ==> Millis(times[k])
    ensures Valid(fw, rx')
    decreases |times|
  {
    if times == [] then rx else SilentRun(fw, LoopStep(fw, rx, [], times[0]), times[1..])
  }

  /** Across a wrap of the 32-bit millisecond counter the timeout still measures
      the true interval: a packet stamped 1000 ms before the wrap is not stale
      3000 ms after it. */
  lemma TimeoutSurvivesWrap(fw: Firmware, rx: ReceiverState)
    requires Valid(fw, rx) && rx.lastPacketTime == MillisModulus - 1000
    ensures Elapsed(3000, rx.lastPacketTime) == 4000
    ensures LoopStep(fw, rx, [], 3000) == rx
  {
  }
}
