/** The fixed binary layouts of nanokontrol/datatypes.py: the Korg sysex
    envelope, the scene dump response that wraps the 7-bit packed data, and
    the decoded scene parameters.

    Each layout is a parse function returning None where the struct library
    would raise (a constant that does not match, a stream that ends too
    early, bytes left over where the layout is Terminated). The matching
    build functions lay a record back out as bytes; the round-trip lemmas
    tie the two directions together. */
module Layout {
  import opened Bits
  import opened Wrappers
  import Codec

  /** The device-exclusive marker that opens every Korg sysex message */
  const KorgExclusive: Byte := 0x42
  /** The vendor / software-project tag at bytes 2..5 of the envelope */
  const SoftwareProject: seq<Byte> := [0x00, 0x01, 0x13, 0x00]
  /** Marker, channel, four tag bytes, format, function id or length */
  const KorgHeaderSize := 8

  /** Every control record is six bytes. Offsets below are written with the
      literal sizes 6 and 31 where they multiply a variable, which keeps the
      arithmetic linear for the solver. */
  const ControlSize := 6
  /** A group: its channel byte then slider, knob, solo, mute and rec */
  const GroupSize := 1 + 5 * ControlSize
  const GroupCount := 8
  const CommonSize := 3
  const TransportButtonCount := 11
  /** The transport block: its channel byte then eleven button records */
  const TransportSize := 1 + TransportButtonCount * ControlSize
  const CustomDawAssignSize := 10
  const ReservedSize := 15
  /** Where each part of the scene parameters starts */
  const GroupsOffset := CommonSize
  const TransportOffset := GroupsOffset + GroupCount * GroupSize
  const CustomDawAssignOffset := TransportOffset + TransportSize
  const ReservedOffset := CustomDawAssignOffset + CustomDawAssignSize
  /** The exact size of the decoded scene parameters */
  const ParamsSize := ReservedOffset + ReservedSize

  /** Structure byte, two data-length bytes and the function id */
  const ResponseHeaderSize := 4
  /** The packed scene data read by the response layout */
  const EncodedDataSize := 388

  datatype KorgMessage = KorgMessage(
    globalMidiChannel: Byte,
    format: Byte,
    funcIdOrLen: Byte,
    data: seq<Byte>)

  datatype VariableControl = VariableControl(
    assignType: Byte,
    reserved1: Byte,
    controlNumber: Byte,
    minValue: Byte,
    maxValue: Byte,
    reserved2: Byte)

  datatype ButtonControl = ButtonControl(
    assignType: Byte,
    behavior: Byte,
    controlNumber: Byte,
    offValue: Byte,
    onValue: Byte,
    reserved1: Byte)

  datatype GroupControls = GroupControls(
    slider: VariableControl,
    knob: VariableControl,
    solo: ButtonControl,
    mute: ButtonControl,
    rec: ButtonControl)

  datatype GroupParams = GroupParams(midiChannel: Byte, controls: GroupControls)

  datatype CommonParams = CommonParams(globalMidiChannel: Byte, controlMode: Byte, ledMode: Byte)

  /** The eleven transport buttons, in the order prev_track, next_track,
      cycle, market_set, prev_marker, next_marker, rew, ff, stop, play, rec */
  datatype TransportParams = TransportParams(midiChannel: Byte, controls: seq<ButtonControl>)

  datatype DataDumpParams = DataDumpParams(
    common: CommonParams,
    groups: seq<GroupParams>,
    transport: TransportParams,
    customDawAssign: seq<Byte>,
    reserved: seq<Byte>)

  datatype DataDumpResponse = DataDumpResponse(
    structure: Byte,
    numDataMsb: Byte,
    numDataLsb: Byte,
    functionId: Byte,
    data: seq<Byte>)

  /** The arrays of the scene parameters have the sizes of the layout */
  predicate WellFormed(p: DataDumpParams) {
    && |p.groups| == GroupCount
    && |p.transport.controls| == TransportButtonCount
    && |p.customDawAssign| == CustomDawAssignSize
    && |p.reserved| == ReservedSize
  }

  /** The five controls of a group, in layout order */
  datatype GroupControlKind = Slider | Knob | Solo | Mute | Rec

  /** Position of a control within its group, counted in records */
  function KindIndex(k: GroupControlKind): nat {
    match k
    case Slider => 0
    case Knob => 1
    case Solo => 2
    case Mute => 3
    case Rec => 4
  }

  /** The control number field of one control of a group */
  function ControlNumber(g: GroupParams, k: GroupControlKind): Byte {
    match k
    case Slider => g.controls.slider.controlNumber
    case Knob => g.controls.knob.controlNumber
    case Solo => g.controls.solo.controlNumber
    case Mute => g.controls.mute.controlNumber
    case Rec => g.controls.rec.controlNumber
  }

  // ---------------------------------------------------------------------
  // The Korg envelope

  /** Reads marker, channel, tag, format and function id in turn, failing
      at the first constant that does not match or byte that is missing;
      everything after the header is the data. */
  function ParseKorgMessage(s: seq<Byte>): (r: Option<KorgMessage>)
    ensures r.Some? <==> |s| >= KorgHeaderSize && s[0] == KorgExclusive && s[2..6] == SoftwareProject
  {
    if |s| < 1 || s[0] != KorgExclusive then None
    else if |s| < 2 then None
    else if |s| < 6 || s[2..6] != SoftwareProject then None
    else if |s| < KorgHeaderSize then None
    else Some(KorgMessage(s[1], s[6], s[7], s[KorgHeaderSize..]))
  }

  function KorgMessageBytes(m: KorgMessage): (r: seq<Byte>)
    ensures |r| == KorgHeaderSize + |m.data|
  {
    [KorgExclusive, m.globalMidiChannel] + SoftwareProject + [m.format, m.funcIdOrLen] + m.data
  }

  /** Building then parsing an envelope gives it back */
  lemma ParseKorgMessageBytes(m: KorgMessage)
    ensures ParseKorgMessage(KorgMessageBytes(m)) == Some(m)
  {
    var s := KorgMessageBytes(m);
    assert s[2..6] == SoftwareProject;
    assert s[KorgHeaderSize..] == m.data;
  }

  /** A parsed envelope is exactly the bytes it was parsed from */
  lemma KorgMessageBytesParse(s: seq<Byte>)
    requires ParseKorgMessage(s).Some?
    ensures KorgMessageBytes(ParseKorgMessage(s).value) == s
  {
    var b := KorgMessageBytes(ParseKorgMessage(s).value);
    assert s == s[..2] + s[2..6] + s[6..8] + s[8..];
    assert b == s[..2] + s[2..6] + s[6..8] + s[8..];
  }

  // ---------------------------------------------------------------------
  // Control records, read at an offset

  function ReadVariable(s: seq<Byte>, o: nat): VariableControl
    requires o + ControlSize <= |s|
  {
    VariableControl(s[o], s[o + 1], s[o + 2], s[o + 3], s[o + 4], s[o + 5])
  }

  function VariableBytes(v: VariableControl): (r: seq<Byte>)
    ensures |r| == ControlSize
  {
    [v.assignType, v.reserved1, v.controlNumber, v.minValue, v.maxValue, v.reserved2]
  }

  function ReadButton(s: seq<Byte>, o: nat): ButtonControl
    requires o + ControlSize <= |s|
  {
    ButtonControl(s[o], s[o + 1], s[o + 2], s[o + 3], s[o + 4], s[o + 5])
  }

  function ButtonBytes(b: ButtonControl): (r: seq<Byte>)
    ensures |r| == ControlSize
  {
    [b.assignType, b.behavior, b.controlNumber, b.offValue, b.onValue, b.reserved1]
  }

  function ReadGroup(s: seq<Byte>, o: nat): GroupParams
    requires o + GroupSize <= |s|
  {
    GroupParams(
      s[o],
      GroupControls(
        ReadVariable(s, o + 1),
        ReadVariable(s, o + 7),
        ReadButton(s, o + 13),
        ReadButton(s, o + 19),
        ReadButton(s, o + 25)))
  }

  function GroupBytes(g: GroupParams): (r: seq<Byte>)
    ensures |r| == GroupSize
  {
    [g.midiChannel]
    + VariableBytes(g.controls.slider) + VariableBytes(g.controls.knob)
    + ButtonBytes(g.controls.solo) + ButtonBytes(g.controls.mute) + ButtonBytes(g.controls.rec)
  }

  /** n consecutive groups starting at offset o */
  function ReadGroups(s: seq<Byte>, o: nat, n: nat): (r: seq<GroupParams>)
    requires o + 31 * n <= |s|
    ensures |r| == n
    decreases n
  {
    if n == 0 then [] else [ReadGroup(s, o)] + ReadGroups(s, o + GroupSize, n - 1)
  }

  function GroupsBytes(gs: seq<GroupParams>): (r: seq<Byte>)
    ensures |r| == 31 * |gs|
  {
    if gs == [] then [] else GroupBytes(gs[0]) + GroupsBytes(gs[1..])
  }

  /** n consecutive button records starting at offset o */
  function ReadButtons(s: seq<Byte>, o: nat, n: nat): (r: seq<ButtonControl>)
    requires o + 6 * n <= |s|
    ensures |r| == n
    decreases n
  {
    if n == 0 then [] else [ReadButton(s, o)] + ReadButtons(s, o + ControlSize, n - 1)
  }

  function ButtonsBytes(bs: seq<ButtonControl>): (r: seq<Byte>)
    ensures |r| == 6 * |bs|
  {
    if bs == [] then [] else ButtonBytes(bs[0]) + ButtonsBytes(bs[1..])
  }

  function ReadCommon(s: seq<Byte>, o: nat): CommonParams
    requires o + CommonSize <= |s|
  {
    CommonParams(s[o], s[o + 1], s[o + 2])
  }

  function CommonBytes(c: CommonParams): (r: seq<Byte>)
    ensures |r| == CommonSize
  {
    [c.globalMidiChannel, c.controlMode, c.ledMode]
  }

  function ReadTransport(s: seq<Byte>, o: nat): (r: TransportParams)
    requires o + TransportSize <= |s|
    ensures |r.controls| == TransportButtonCount
  {
    TransportParams(s[o], ReadButtons(s, o + 1, TransportButtonCount))
  }

  function TransportBytes(t: TransportParams): (r: seq<Byte>)
    ensures |r| == 1 + 6 * |t.controls|
  {
    [t.midiChannel] + ButtonsBytes(t.controls)
  }

  // ---------------------------------------------------------------------
  // The scene parameters

  /** The offsets of the five parts of the layout, as numbers */
  lemma LayoutOffsets()
    ensures GroupsOffset == 3 && TransportOffset == 251 && CustomDawAssignOffset == 318
    ensures ReservedOffset == 328 && ParamsSize == 343
  {
  }

  function ReadParams(s: seq<Byte>): (r: DataDumpParams)
    requires ParamsSize <= |s|
    ensures WellFormed(r)
  {
    LayoutOffsets();
    DataDumpParams(
      ReadCommon(s, 0),
      ReadGroups(s, GroupsOffset, GroupCount),
      ReadTransport(s, TransportOffset),
      s[CustomDawAssignOffset..ReservedOffset],
      s[ReservedOffset..ParamsSize])
  }

  /** The parse fails when a field runs past the end of the input, and,
      the layout being Terminated, also when bytes are left over. */
  function ParseDataDumpParams(s: seq<Byte>): (r: Option<DataDumpParams>)
    ensures r.Some? <==> |s| == ParamsSize
    ensures r.Some? ==> WellFormed(r.value)
  {
    if |s| < ParamsSize then None
    else if |s| > ParamsSize then None
    else Some(ReadParams(s))
  }

  function ParamsBytes(p: DataDumpParams): (r: seq<Byte>)
    requires WellFormed(p)
    ensures |r| == ParamsSize
  {
    CommonBytes(p.common) + GroupsBytes(p.groups) + TransportBytes(p.transport)
    + p.customDawAssign + p.reserved
  }

  // ---------------------------------------------------------------------
  // Round trips of the scene parameters

  /** b sits in s at offset o */
  predicate At(s: seq<Byte>, o: nat, b: seq<Byte>) {
    o + |b| <= |s| && forall i :: 0 <= i < |b| ==> s[o + i] == b[i]
  }

  lemma AtSplit(s: seq<Byte>, o: nat, a: seq<Byte>, b: seq<Byte>)
    requires At(s, o, a + b)
    ensures At(s, o, a) && At(s, o + |a|, b)
  {
    forall i | 0 <= i < |a|
      ensures s[o + i] == a[i]
    {
      assert (a + b)[i] == a[i];
    }
    forall i | 0 <= i < |b|
      ensures s[o + |a| + i] == b[i]
    {
      assert (a + b)[|a| + i] == b[i];
    }
  }

  lemma AtJoin(s: seq<Byte>, o: nat, a: seq<Byte>, b: seq<Byte>)
    requires At(s, o, a) && At(s, o + |a|, b)
    ensures At(s, o, a + b)
  {
    forall i | 0 <= i < |a + b|
      ensures s[o + i] == (a + b)[i]
    {
      if i >= |a| {
        assert s[o + |a| + (i - |a|)] == b[i - |a|];
      }
    }
  }

  lemma ReadVariableAt(s: seq<Byte>, o: nat, v: VariableControl)
    requires At(s, o, VariableBytes(v))
    ensures ReadVariable(s, o) == v
  {
    var b := VariableBytes(v);
    assert s[o] == b[0] && s[o + 1] == b[1] && s[o + 2] == b[2];
    assert s[o + 3] == b[3] && s[o + 4] == b[4] && s[o + 5] == b[5];
  }

  lemma ReadButtonAt(s: seq<Byte>, o: nat, v: ButtonControl)
    requires At(s, o, ButtonBytes(v))
    ensures ReadButton(s, o) == v
  {
    var b := ButtonBytes(v);
    assert s[o] == b[0] && s[o + 1] == b[1] && s[o + 2] == b[2];
    assert s[o + 3] == b[3] && s[o + 4] == b[4] && s[o + 5] == b[5];
  }

  lemma VariableBytesRead(s: seq<Byte>, o: nat)
    requires o + ControlSize <= |s|
    ensures At(s, o, VariableBytes(ReadVariable(s, o)))
  {
  }

  lemma ButtonBytesRead(s: seq<Byte>, o: nat)
    requires o + ControlSize <= |s|
    ensures At(s, o, ButtonBytes(ReadButton(s, o)))
  {
  }

  /** Reading a group where its bytes were laid out gives the group back */
  lemma ReadGroupAt(s: seq<Byte>, o: nat, g: GroupParams)
    requires At(s, o, GroupBytes(g))
    ensures ReadGroup(s, o) == g
  {
    var c := g.controls;
    var ch := [g.midiChannel];
    var v1, v2 := VariableBytes(c.slider), VariableBytes(c.knob);
    var b1, b2, b3 := ButtonBytes(c.solo), ButtonBytes(c.mute), ButtonBytes(c.rec);
    AtSplit(s, o, ch + v1 + v2 + b1 + b2, b3);
    AtSplit(s, o, ch + v1 + v2 + b1, b2);
    AtSplit(s, o, ch + v1 + v2, b1);
    AtSplit(s, o, ch + v1, v2);
    AtSplit(s, o, ch, v1);
    assert s[o] == ch[0];
    ReadVariableAt(s, o + 1, c.slider);
    ReadVariableAt(s, o + 7, c.knob);
    ReadButtonAt(s, o + 13, c.solo);
    ReadButtonAt(s, o + 19, c.mute);
    ReadButtonAt(s, o + 25, c.rec);
  }

  /** The bytes of a group read at o are the bytes found there */
  lemma GroupBytesRead(s: seq<Byte>, o: nat)
    requires o + GroupSize <= |s|
    ensures At(s, o, GroupBytes(ReadGroup(s, o)))
  {
    var g := ReadGroup(s, o);
    var c := g.controls;
    var ch := [g.midiChannel];
    var v1, v2 := VariableBytes(c.slider), VariableBytes(c.knob);
    var b1, b2, b3 := ButtonBytes(c.solo), ButtonBytes(c.mute), ButtonBytes(c.rec);
    VariableBytesRead(s, o + 1);
    VariableBytesRead(s, o + 7);
    ButtonBytesRead(s, o + 13);
    ButtonBytesRead(s, o + 19);
    ButtonBytesRead(s, o + 25);
    AtJoin(s, o, ch, v1);
    AtJoin(s, o, ch + v1, v2);
    AtJoin(s, o, ch + v1 + v2, b1);
    AtJoin(s, o, ch + v1 + v2 + b1, b2);
    AtJoin(s, o, ch + v1 + v2 + b1 + b2, b3);
  }

  lemma {:induction false} ReadGroupsAt(s: seq<Byte>, o: nat, gs: seq<GroupParams>)
    requires At(s, o, GroupsBytes(gs))
    ensures ReadGroups(s, o, |gs|) == gs
    decreases |gs|
  {
    if gs != [] {
      AtSplit(s, o, GroupBytes(gs[0]), GroupsBytes(gs[1..]));
      ReadGroupAt(s, o, gs[0]);
      ReadGroupsAt(s, o + GroupSize, gs[1..]);
    }
  }

  lemma {:induction false} GroupsBytesRead(s: seq<Byte>, o: nat, n: nat)
    requires o + 31 * n <= |s|
    ensures At(s, o, GroupsBytes(ReadGroups(s, o, n)))
    decreases n
  {
    if n > 0 {
      var gs := ReadGroups(s, o, n);
      assert gs[0] == ReadGroup(s, o);
      assert gs[1..] == ReadGroups(s, o + GroupSize, n - 1);
      GroupBytesRead(s, o);
      GroupsBytesRead(s, o + GroupSize, n - 1);
      AtJoin(s, o, GroupBytes(gs[0]), GroupsBytes(gs[1..]));
    }
  }

  lemma {:induction false} ReadButtonsAt(s: seq<Byte>, o: nat, bs: seq<ButtonControl>)
    requires At(s, o, ButtonsBytes(bs))
    ensures ReadButtons(s, o, |bs|) == bs
    decreases |bs|
  {
    if bs != [] {
      AtSplit(s, o, ButtonBytes(bs[0]), ButtonsBytes(bs[1..]));
      ReadButtonAt(s, o, bs[0]);
      ReadButtonsAt(s, o + ControlSize, bs[1..]);
    }
  }

  lemma {:induction false} ButtonsBytesRead(s: seq<Byte>, o: nat, n: nat)
    requires o + 6 * n <= |s|
    ensures At(s, o, ButtonsBytes(ReadButtons(s, o, n)))
    decreases n
  {
    if n > 0 {
      var bs := ReadButtons(s, o, n);
      assert bs[0] == ReadButton(s, o);
      assert bs[1..] == ReadButtons(s, o + ControlSize, n - 1);
      ButtonBytesRead(s, o);
      ButtonsBytesRead(s, o + ControlSize, n - 1);
      AtJoin(s, o, ButtonBytes(bs[0]), ButtonsBytes(bs[1..]));
    }
  }

  /** A byte run sits at the start of itself */
  lemma AtSelf(s: seq<Byte>)
    ensures At(s, 0, s)
  {
  }

  lemma AtSlice(s: seq<Byte>, o: nat, n: nat)
    requires o + n <= |s|
    ensures At(s, o, s[o..o + n])
  {
  }

  /** Five runs laid end to end each sit at the sum of the lengths before it */
  lemma AtFive(s: seq<Byte>, a: seq<Byte>, b: seq<Byte>, c: seq<Byte>, d: seq<Byte>, e: seq<Byte>)
    requires s == a + b + c + d + e
    ensures At(s, 0, a) && At(s, |a|, b) && At(s, |a| + |b|, c)
    ensures At(s, |a| + |b| + |c|, d) && At(s, |a| + |b| + |c| + |d|, e)
  {
    AtSelf(s);
    AtSplit(s, 0, a + b + c + d, e);
    AtSplit(s, 0, a + b + c, d);
    AtSplit(s, 0, a + b, c);
    AtSplit(s, 0, a, b);
  }

  /** Runs found end to end at offset 0 make up the whole of a run of the
      same total length */
  lemma AtFiveJoin(s: seq<Byte>, a: seq<Byte>, b: seq<Byte>, c: seq<Byte>, d: seq<Byte>, e: seq<Byte>)
    requires At(s, 0, a) && At(s, |a|, b) && At(s, |a| + |b|, c)
    requires At(s, |a| + |b| + |c|, d) && At(s, |a| + |b| + |c| + |d|, e)
    requires |s| == |a| + |b| + |c| + |d| + |e|
    ensures s == a + b + c + d + e
  {
    AtJoin(s, 0, a, b);
    AtJoin(s, 0, a + b, c);
    AtJoin(s, 0, a + b + c, d);
    AtJoin(s, 0, a + b + c + d, e);
    var r := a + b + c + d + e;
    assert forall i :: 0 <= i < |r| ==> s[0 + i] == r[i];
  }

  lemma ReadTransportAt(s: seq<Byte>, o: nat, t: TransportParams)
    requires |t.controls| == TransportButtonCount
    requires At(s, o, TransportBytes(t))
    ensures ReadTransport(s, o) == t
  {
    AtSplit(s, o, [t.midiChannel], ButtonsBytes(t.controls));
    assert s[o + 0] == [t.midiChannel][0];
    ReadButtonsAt(s, o + 1, t.controls);
  }

  lemma TransportBytesRead(s: seq<Byte>, o: nat)
    requires o + TransportSize <= |s|
    ensures At(s, o, TransportBytes(ReadTransport(s, o)))
  {
    var t := ReadTransport(s, o);
    ButtonsBytesRead(s, o + 1, TransportButtonCount);
    assert At(s, o, [t.midiChannel]);
    AtJoin(s, o, [t.midiChannel], ButtonsBytes(t.controls));
  }

  lemma ReadCommonAt(s: seq<Byte>, o: nat, c: CommonParams)
    requires At(s, o, CommonBytes(c))
    ensures ReadCommon(s, o) == c
  {
    var b := CommonBytes(c);
    assert s[o + 0] == b[0] && s[o + 1] == b[1] && s[o + 2] == b[2];
  }

  lemma CommonBytesRead(s: seq<Byte>, o: nat)
    requires o + CommonSize <= |s|
    ensures At(s, o, CommonBytes(ReadCommon(s, o)))
  {
  }

  lemma AtIsSlice(s: seq<Byte>, o: nat, b: seq<Byte>)
    requires At(s, o, b)
    ensures s[o..o + |b|] == b
  {
    forall i | 0 <= i < |b|
      ensures s[o..o + |b|][i] == b[i]
    {
    }
  }

  /** Round trip one: laying out well-formed scene parameters and parsing the
      bytes gives the parameters back. */
  lemma ParseParamsBytes(p: DataDumpParams)
    requires WellFormed(p)
    ensures ParseDataDumpParams(ParamsBytes(p)) == Some(p)
  {
    var s := ParamsBytes(p);
    AtFive(s, CommonBytes(p.common), GroupsBytes(p.groups), TransportBytes(p.transport),
      p.customDawAssign, p.reserved);
    ReadCommonAt(s, 0, p.common);
    ReadGroupsAt(s, GroupsOffset, p.groups);
    ReadTransportAt(s, TransportOffset, p.transport);
    AtIsSlice(s, CustomDawAssignOffset, p.customDawAssign);
    AtIsSlice(s, ReservedOffset, p.reserved);
  }

  /** The reserved bytes close the layout */
  lemma ParamsBytesReserved(p: DataDumpParams)
    requires WellFormed(p)
    ensures ParamsBytes(p)[ReservedOffset..] == p.reserved
  {
    var s := ParamsBytes(p);
    AtFive(s, CommonBytes(p.common), GroupsBytes(p.groups), TransportBytes(p.transport),
      p.customDawAssign, p.reserved);
    AtIsSlice(s, ReservedOffset, p.reserved);
  }

  /** Round trip two: parsing 343 bytes and laying the result out again
      gives the same bytes. */
  lemma ParamsBytesParse(s: seq<Byte>)
    requires |s| == ParamsSize
    ensures ParseDataDumpParams(s).Some?
    ensures ParamsBytes(ParseDataDumpParams(s).value) == s
  {
    var p := ReadParams(s);
    CommonBytesRead(s, 0);
    GroupsBytesRead(s, GroupsOffset, GroupCount);
    TransportBytesRead(s, TransportOffset);
    AtSlice(s, CustomDawAssignOffset, CustomDawAssignSize);
    AtSlice(s, ReservedOffset, ReservedSize);
    AtFiveJoin(s, CommonBytes(p.common), GroupsBytes(p.groups), TransportBytes(p.transport),
      p.customDawAssign, p.reserved);
  }

  lemma {:induction false} ReadGroupsIndex(s: seq<Byte>, o: nat, n: nat, i: nat)
    requires o + 31 * n <= |s| && i < n
    ensures ReadGroups(s, o, n)[i] == ReadGroup(s, o + 31 * i)
    decreases i
  {
    if i > 0 {
      var o', n', i' := o + GroupSize, n - 1, i - 1;
      assert o' + 31 * n' == o + 31 * n;
      assert o' + 31 * i' == o + 31 * i;
      var rest := ReadGroups(s, o', n');
      assert ReadGroups(s, o, n) == [ReadGroup(s, o)] + rest;
      ReadGroupsIndex(s, o', n', i');
      assert ReadGroups(s, o, n)[i] == rest[i'];
    }
  }

  lemma {:induction false} ReadButtonsIndex(s: seq<Byte>, o: nat, n: nat, i: nat)
    requires o + 6 * n <= |s| && i < n
    ensures ReadButtons(s, o, n)[i] == ReadButton(s, o + 6 * i)
    decreases i
  {
    if i > 0 {
      assert (o + ControlSize) + 6 * (n - 1) == o + 6 * n;
      assert (o + ControlSize) + 6 * (i - 1) == o + 6 * i;
      ReadButtonsIndex(s, o + ControlSize, n - 1, i - 1);
    }
  }

  /** Where the fields the control map reads sit in the 343 bytes: the
      global channel at 0, group i's channel at 3 + 31i, and its control
      of kind k as the third byte of record k after that channel. */
  lemma GroupFieldOffsets(s: seq<Byte>, i: nat, k: GroupControlKind)
    requires |s| == ParamsSize && i < GroupCount
    ensures ParseDataDumpParams(s).Some?
    ensures ParseDataDumpParams(s).value.common.globalMidiChannel == s[0]
    ensures ParseDataDumpParams(s).value.groups[i].midiChannel == s[GroupsOffset + 31 * i]
    ensures ControlNumber(ParseDataDumpParams(s).value.groups[i], k)
      == s[GroupsOffset + 31 * i + 1 + 6 * KindIndex(k) + 2]
  {
    var o := GroupsOffset + 31 * i;
    ParamsGroup(s, i);
    ReadGroupFields(s, o, k);
  }

  lemma ParamsGroup(s: seq<Byte>, i: nat)
    requires |s| == ParamsSize && i < GroupCount
    ensures ParseDataDumpParams(s).Some?
    ensures ParseDataDumpParams(s).value.groups[i] == ReadGroup(s, GroupsOffset + 31 * i)
  {
    ReadGroupsIndex(s, GroupsOffset, GroupCount, i);
  }

  lemma ReadGroupFields(s: seq<Byte>, o: nat, k: GroupControlKind)
    requires o + GroupSize <= |s|
    ensures ReadGroup(s, o).midiChannel == s[o]
    ensures ControlNumber(ReadGroup(s, o), k) == s[o + 1 + 6 * KindIndex(k) + 2]
  {
  }

  /** The transport channel sits at 251 and transport button t's control
      number is the third byte of the t-th record after it. */
  lemma TransportFieldOffsets(s: seq<Byte>, t: nat)
    requires |s| == ParamsSize && t < TransportButtonCount
    ensures ParseDataDumpParams(s).Some?
    ensures ParseDataDumpParams(s).value.transport.midiChannel == s[TransportOffset]
    ensures ParseDataDumpParams(s).value.transport.controls[t].controlNumber
      == s[TransportOffset + 1 + 6 * t + 2]
  {
    ReadButtonsIndex(s, TransportOffset + 1, TransportButtonCount, t);
  }

  // ---------------------------------------------------------------------
  // The scene dump response

  /** Reads the four header bytes, then exactly 388 packed bytes that are
      decoded on the way in. The length bytes are not checked against
      anything and bytes after the packed data are ignored. */
  function ParseDataDumpResponse(s: seq<Byte>): (r: Option<DataDumpResponse>)
    ensures r.Some? <==> |s| >= ResponseHeaderSize + EncodedDataSize
    ensures r.Some? ==> |r.value.data| == ParamsSize
  {
    if |s| < ResponseHeaderSize + EncodedDataSize then None
    else
      var data := Codec.Decode(s[ResponseHeaderSize..ResponseHeaderSize + EncodedDataSize]);
      Codec.DecodeLength(s[ResponseHeaderSize..ResponseHeaderSize + EncodedDataSize]);
      Codec.GroupsOfEight(EncodedDataSize);
      Some(DataDumpResponse(s[0], s[1], s[2], s[3], data))
  }

  /** Bytes after the packed data change nothing */
  lemma ResponseIgnoresTrailing(s: seq<Byte>, t: seq<Byte>)
    requires |s| >= ResponseHeaderSize + EncodedDataSize
    ensures ParseDataDumpResponse(s + t) == ParseDataDumpResponse(s)
  {
    assert (s + t)[..ResponseHeaderSize + EncodedDataSize] == s[..ResponseHeaderSize + EncodedDataSize];
    assert (s + t)[ResponseHeaderSize..ResponseHeaderSize + EncodedDataSize]
      == s[ResponseHeaderSize..ResponseHeaderSize + EncodedDataSize];
  }

  /** The two data-length bytes are read but never checked: any values
      there give the same success and the same data. */
  lemma ResponseLengthUnchecked(s: seq<Byte>, msb: Byte, lsb: Byte)
    requires |s| >= 3
    ensures ParseDataDumpResponse(s[1 := msb][2 := lsb]).Some? == ParseDataDumpResponse(s).Some?
    ensures ParseDataDumpResponse(s).Some? ==>
      ParseDataDumpResponse(s[1 := msb][2 := lsb]).value
      == ParseDataDumpResponse(s).value.(numDataMsb := msb, numDataLsb := lsb)
  {
    var s' := s[1 := msb][2 := lsb];
    if |s| >= ResponseHeaderSize + EncodedDataSize {
      assert s'[ResponseHeaderSize..ResponseHeaderSize + EncodedDataSize]
        == s[ResponseHeaderSize..ResponseHeaderSize + EncodedDataSize];
    }
  }

  /** The 388 packed bytes end in a short group of four (a carrier and
      three payload bytes), so the last four of the 343 decoded bytes are
      always zero. */
  lemma ResponseDataTail(s: seq<Byte>, j: nat)
    requires ParseDataDumpResponse(s).Some?
    requires ParamsSize - 4 <= j < ParamsSize
    ensures ParseDataDumpResponse(s).value.data[j] == 0
  {
    var y := s[ResponseHeaderSize..ResponseHeaderSize + EncodedDataSize];
    Codec.DecodeLayout(y, 48, j - 7 * 48);
  }

  /** The device's reply: a header and the wire form of 339 natural bytes
      (48 full groups and one group of three) parse to those bytes followed
      by four zeros, whatever follows. */
  lemma ResponseOfWireForm(h: seq<Byte>, x: seq<Byte>, t: seq<Byte>)
    requires |h| == ResponseHeaderSize && |x| == ParamsSize - 4
    ensures ParseDataDumpResponse(h + Codec.WireForm(x) + t)
      == Some(DataDumpResponse(h[0], h[1], h[2], h[3], x + Codec.Zeros(4)))
  {
    var w := Codec.WireForm(x);
    Codec.GroupsOfSeven(|x|);
    assert |w| == EncodedDataSize;
    var s := h + w + t;
    assert s[ResponseHeaderSize..ResponseHeaderSize + EncodedDataSize] == w;
    Codec.DecodeWireForm(x);
    assert Codec.Pad(|x|) == 4;
  }
}
