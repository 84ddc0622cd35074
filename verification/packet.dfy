/** The UDP datagram the controller sends to a receiver:
    `[strip id][brightness][R G B]...` (`send_data_to_esp32`), and the fixed
    test datagram of the connection test script. */
module Packet {
  import opened Common

  /** The pixel bytes in wire order: three bytes per pixel, red first. */
  function Serialize(px: seq<Pixel>): (bs: seq<byte>)
    ensures |bs| == 3 * |px|
    ensures forall i :: 0 <= i < |px| ==>
      bs[3 * i] == px[i].r && bs[3 * i + 1] == px[i].g && bs[3 * i + 2] == px[i].b
  {
    if px == [] then []
    else
      var rest := Serialize(px[1..]);
      assert forall i :: 1 <= i < |px| ==> px[1..][i - 1] == px[i];
      [px[0].r, px[0].g, px[0].b] + rest
  }

  /** Reads consecutive byte triples back as pixels; a trailing partial triple
      is ignored. */
  function Deserialize(bs: seq<byte>): (px: seq<Pixel>)
    ensures |px| == |bs| / 3
    ensures forall i :: 0 <= i < |px| ==> px[i] == Pixel(bs[3 * i], bs[3 * i + 1], bs[3 * i + 2])
  {
    seq(|bs| / 3, i requires 0 <= i < |bs| / 3 => Pixel(bs[3 * i], bs[3 * i + 1], bs[3 * i + 2]))
  }

  /** Reading the serialized bytes gives back the pixels. */
  lemma DeserializeSerialize(px: seq<Pixel>)
    ensures Deserialize(Serialize(px)) == px
  {
    var bs := Serialize(px);
    assert |bs| / 3 == |px|;
  }

  /** Serializing what was read gives back any whole number of triples. */
  lemma SerializeDeserialize(bs: seq<byte>)
    requires |bs| % 3 == 0
    ensures Serialize(Deserialize(bs)) == bs
  {
    var px := Deserialize(bs);
    var out := Serialize(px);
    assert |out| == |bs|;
    forall j | 0 <= j < |bs|
      ensures out[j] == bs[j]
    {
      var i := j / 3;
      assert j == 3 * i + j % 3 && 0 <= i < |px|;
      assert px[i] == Pixel(bs[3 * i], bs[3 * i + 1], bs[3 * i + 2]);
      assert out[3 * i] == px[i].r && out[3 * i + 1] == px[i].g && out[3 * i + 2] == px[i].b;
    }
  }

  /** `send_data_to_esp32` up to the `sendto` call: the datagram handed to the
      socket, or `None` when the strip has no open socket (`sockets[strip]` is
      `None`, or the index is past the list) or when `bytearray.append` rejects
      the strip index or the brightness as a byte value. */
  function EncodePacket(strip: nat, brightness: int, px: seq<Pixel>, sockets: seq<bool>): (r: Option<seq<byte>>)
    ensures r.Some? <==> strip < |sockets| && sockets[strip] && strip < 256 && 0 <= brightness < 256
    ensures r.Some? ==>
      && |r.value| == 2 + 3 * |px|
      && r.value[0] == strip
      && r.value[1] == brightness
      && Deserialize(r.value[2..]) == px
  {
    if strip >= |sockets| || !sockets[strip] then None
    else if strip >= 256 || !(0 <= brightness < 256) then None
    else
      var bs := [strip as byte, brightness as byte] + Serialize(px);
      assert bs[2..] == Serialize(px);
      DeserializeSerialize(px);
      Some(bs)
  }

  /** The four test colours the connection test puts on LEDs 0..3. */
  const TestColors: seq<Pixel> := [Pixel(255, 0, 0), Pixel(0, 255, 0), Pixel(0, 0, 255), White]

  /** The pattern the test datagram encodes: the four test colours, then 996 black. */
  function TestPattern(): (px: seq<Pixel>)
    ensures |px| == 1000
    ensures px[..4] == TestColors && AllBlack(px[4..])
  {
    TestColors + BlackStrip(996)
  }

  /** `test_esp32_connection`'s datagram: the strip id, brightness 255, the
      twelve bytes of red, green, blue and white, then 2988 zero bytes; `None`
      when `append` rejects the strip id. */
  function TestPacket(stripId: int): (r: Option<seq<byte>>)
    ensures r.Some? <==> 0 <= stripId < 256
    ensures r.Some? ==>
      && |r.value| == 3002
      && r.value[0] == stripId
      && r.value[1] == 255
      && Deserialize(r.value[2..]) == TestPattern()
  {
    if !(0 <= stripId < 256) then None
    else
      var colorBytes: seq<byte> := [255, 0, 0, 0, 255, 0, 0, 0, 255, 255, 255, 255];
      var body := colorBytes + seq(2988, _ => 0);
      TestBodyDecodes(colorBytes, body);
      var bs := [stripId as byte, 255] + body;
      assert bs[2..] == body;
      Some(bs)
  }

  lemma TestBodyDecodes(colorBytes: seq<byte>, body: seq<byte>)
    requires colorBytes == [255, 0, 0, 0, 255, 0, 0, 0, 255, 255, 255, 255]
    requires body == colorBytes + seq(2988, _ => 0)
    ensures Deserialize(body) == TestPattern()
  {
    var px := Deserialize(body);
    var want := TestPattern();
    assert |px| == 1000;
    forall i | 0 <= i < 1000
      ensures px[i] == want[i]
    {
      if i >= 4 {
        assert body[3 * i] == 0 && body[3 * i + 1] == 0 && body[3 * i + 2] == 0;
        assert want[i] == BlackStrip(996)[i - 4];
      }
    }
  }
}
