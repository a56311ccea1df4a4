/** The scene request of nanokontrol/sysex.py: the sysex message that asks
    the device for a dump of its current scene. */
module Sysex {
  import opened Bits
  import opened Wrappers
  import Layout

  /** `CurrentSceneRequest`: the channel the device is asked on */
  datatype CurrentSceneRequest = CurrentSceneRequest(channel: Byte)

  /** The constructor takes a channel argument but stores 0 whatever it is
      given, so every request is a request on channel 0. */
  function NewCurrentSceneRequest(channel: int): (r: CurrentSceneRequest)
  {
    CurrentSceneRequest(0)
  }

  /** `CurrentSceneRequest.bytes`: marker, `0x40 | channel`, the software
      project tag, then format 0x1F, function 0x10 (current scene dump
      request) and a zero byte. */
  function RequestBytes(req: CurrentSceneRequest): (r: seq<Byte>)
    ensures |r| == 9
  {
    Pow2Eight();
    OrBelow(0x40, req.channel, 8);
    [Layout.KorgExclusive, Or(0x40, req.channel), 0x00, 0x01, 0x13, 0x00, 0x1F, 0x10, 0x00]
  }

  lemma Pow2Eight()
    ensures Pow2(8) == 0x100
  {
  }

  /** Whatever channel the constructor is given, the message is the same
      nine bytes, with 0x40 at byte 1. */
  lemma RequestIgnoresChannel(channel: int)
    ensures RequestBytes(NewCurrentSceneRequest(channel))
      == [0x42, 0x40, 0x00, 0x01, 0x13, 0x00, 0x1F, 0x10, 0x00]
  {
    OrZero(0x40);
  }

  /** Every byte of the request is valid 7-bit sysex data */
  lemma RequestClean(channel: int)
    ensures SevenBitClean(RequestBytes(NewCurrentSceneRequest(channel)))
  {
    RequestIgnoresChannel(channel);
  }

  /** The request carries the marker and tag the envelope parser checks, so
      it parses as an envelope on global channel 0x40 with format 0x1F,
      function 0x10 and the single data byte 0. */
  lemma RequestParses(channel: int)
    ensures Layout.ParseKorgMessage(RequestBytes(NewCurrentSceneRequest(channel)))
      == Some(Layout.KorgMessage(0x40, 0x1F, 0x10, [0x00]))
  {
    var s := RequestBytes(NewCurrentSceneRequest(channel));
    RequestIgnoresChannel(channel);
    assert s[2..6] == Layout.SoftwareProject;
  }

  /** The request is not itself a scene dump: its envelope data is far too
      short for the response layout, so a request echoed back to the host
      is skipped during discovery. */
  lemma RequestIsNotADump(channel: int)
    ensures Layout.ParseDataDumpResponse(
      Layout.ParseKorgMessage(RequestBytes(NewCurrentSceneRequest(channel))).value.data).None?
  {
    RequestParses(channel);
  }
}
