/**
  Descriptor framing and the two header fields the discovery state machine reads.

  The byte-grammar parser of the repository is not part of this model. This module
  is a concrete stand-in that follows the layouts of the USB 2.0 specification:
  every descriptor starts with bLength and bDescriptorType (section 9.5), the
  device descriptor carries bNumConfigurations at offset 17 (section 9.6.1) and the
  configuration descriptor carries wTotalLength, little-endian, at offset 2
  (section 9.6.3). A frame's payload is what follows its two header bytes.
 */
module Descriptor {

  newtype byte = x: int | 0 <= x < 0x100
  newtype u16 = x: int | 0 <= x < 0x1_0000

  /** bDescriptorType values (USB 2.0, Table 9-5). */
  const TYPE_DEVICE: byte := 1
  const TYPE_CONFIGURATION: byte := 2

  datatype Option<+T> = None | Some(value: T)

  /** One descriptor: its type tag and the payload after the two header bytes. */
  datatype Frame = Frame(descriptorType: byte, data: seq<byte>)

  /** Result of a parser: the unconsumed remainder and the parsed value, or failure. */
  datatype Parsed<+T> = Parsed(rest: seq<byte>, value: T) | Malformed

  /** A frame whose length fits in the one-byte bLength field. */
  predicate Encodable(f: Frame) {
    |f.data| <= 0xFF - 2
  }

  /** The bytes of one descriptor on the wire. */
  function EncodeFrame(f: Frame): (bytes: seq<byte>)
    requires Encodable(f)
    ensures |bytes| == |f.data| + 2 && bytes[0] as int == |bytes|
  {
    [(|f.data| + 2) as byte, f.descriptorType] + f.data
  }

  /** Several descriptors back to back, as in a configuration bundle. */
  function EncodeFrames(fs: seq<Frame>): (bytes: seq<byte>)
    requires forall i :: 0 <= i < |fs| ==> Encodable(fs[i])
    ensures fs != [] ==> bytes != []
  {
    if fs == [] then [] else EncodeFrame(fs[0]) + EncodeFrames(fs[1..])
  }

  /**
    Parses one descriptor frame off the front of `input`. A frame whose bLength is
    below the two header bytes, or runs past the end of the input, is malformed.
   */
  function AnyDescriptor(input: seq<byte>): (r: Parsed<Frame>)
    ensures r.Malformed? <==> |input| < 2 || input[0] < 2 || |input| < input[0] as int
    ensures r.Parsed? ==> |r.rest| < |input|
    ensures r.Parsed? ==> Encodable(r.value) && input == EncodeFrame(r.value) + r.rest
  {
    if |input| < 2 || input[0] < 2 || |input| < input[0] as int then
      Malformed
    else
      var len := input[0] as int;
      var f := Frame(input[1], input[2..len]);
      assert input == EncodeFrame(f) + input[len..];
      Parsed(input[len..], f)
  }

  /** Parsing the encoding of a frame gives that frame back, and leaves what follows it. */
  lemma ParseEncode(f: Frame, rest: seq<byte>)
    requires Encodable(f)
    ensures AnyDescriptor(EncodeFrame(f) + rest) == Parsed(rest, f)
  {
    var input := EncodeFrame(f) + rest;
    var len := |f.data| + 2;
    assert input[2..len] == f.data;
    assert input[len..] == rest;
  }

  /** bNumConfigurations of a device descriptor, read from its payload. */
  function DeviceConfigCount(payload: seq<byte>): (r: Option<byte>)
    ensures r.Some? <==> |payload| >= 18 - 2
    ensures r.Some? ==> r.value == payload[17 - 2]
  {
    if |payload| < 18 - 2 then None else Some(payload[17 - 2])
  }

  /** The two bytes of `n`, least significant first. */
  function LittleEndian(n: u16): (bytes: seq<byte>)
    ensures |bytes| == 2
  {
    [(n % 0x100) as byte, (n / 0x100) as byte]
  }

  /** wTotalLength of a configuration descriptor, read from its payload. */
  function ConfigTotalLength(payload: seq<byte>): (r: Option<u16>)
    ensures r.Some? <==> |payload| >= 2
  {
    if |payload| < 2 then None
    else Some((payload[0] as int + 0x100 * payload[1] as int) as u16)
  }

  /** Reading wTotalLength undoes writing it. */
  lemma ConfigTotalLengthDecodes(n: u16, tail: seq<byte>)
    ensures ConfigTotalLength(LittleEndian(n) + tail) == Some(n)
  {
    var p := LittleEndian(n) + tail;
    assert p[0] as int == n as int % 0x100 && p[1] as int == n as int / 0x100;
  }
}
