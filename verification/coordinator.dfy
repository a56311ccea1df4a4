/** The event handling of watchpulse.py's `Controller`: discovery of the
    scene, the FIFO event queue and its drain, the MIDI-to-control rule and
    the LED commands. The queue is a plain sequence; the callbacks that
    fill it from other threads are not part of this model. */
module Coordinator {
  import opened Bits
  import opened Wrappers
  import opened Layout
  import opened ControlMap
  import OrderedDict
  import Codec

  /** The mido messages the controller looks at */
  datatype MidiMessage =
    | ControlChange(channel: int, control: int, value: int)
    | SysexMessage(data: seq<Byte>)
    | OtherMidi

  /** `ControlEvent(name, value)`: the name slot holds the spec found in
      `messages` */
  datatype ControlEvent = ControlEvent(spec: ControlSpec, value: int)

  /** The `(type, payload)` pairs put on the queue */
  datatype QueueItem =
    | MidiItem(msg: MidiMessage)
    | PulseItem
    | ControlItem(event: ControlEvent)

  // ---------------------------------------------------------------------
  // Discovery

  /** The three parse layers applied to a sysex payload: the Korg
      envelope, the dump response inside it, the scene parameters inside
      that. */
  function ParseSceneDump(data: seq<Byte>): (r: Option<DataDumpParams>)
    ensures r.Some? ==> WellFormed(r.value)
  {
    match ParseKorgMessage(data)
    case None => None
    case Some(msg) =>
      match ParseDataDumpResponse(msg.data)
      case None => None
      case Some(resp) => ParseDataDumpParams(resp.data)
  }

  /** A sysex payload is a scene dump exactly when it carries the Korg
      marker and tag and is long enough to hold the 392-byte response after
      the 8-byte header; the third layer then always succeeds, because the
      388 packed bytes decode to exactly the 343 bytes it needs. */
  lemma ParseSceneDumpSucceeds(data: seq<Byte>)
    ensures ParseSceneDump(data).Some? <==>
      && |data| >= KorgHeaderSize + ResponseHeaderSize + EncodedDataSize
      && data[0] == KorgExclusive
      && data[2..6] == SoftwareProject
  {
  }

  /** Whether a queue item is a reply `discover` accepts */
  predicate IsSceneReply(item: QueueItem) {
    item.MidiItem? && item.msg.SysexMessage? && ParseSceneDump(item.msg.data).Some?
  }

  /** The position of the first item that passes the test, if any */
  function FirstMatch<T>(q: seq<T>, ok: T -> bool): (r: Option<nat>)
    ensures r.Some? ==> r.value < |q| && ok(q[r.value])
    decreases |q|
  {
    if q == [] then None
    else if ok(q[0]) then Some(0)
    else
      match FirstMatch(q[1..], ok)
      case None => None
      case Some(i) => Some(i + 1)
  }

  /** FirstMatch finds nothing exactly when no item passes, and otherwise
      an item that passes with none before it passing */
  lemma {:induction false} FirstMatchSpec<T>(q: seq<T>, ok: T -> bool)
    ensures FirstMatch(q, ok).None? <==> forall i :: 0 <= i < |q| ==> !ok(q[i])
    ensures FirstMatch(q, ok).Some? ==> forall j :: 0 <= j < FirstMatch(q, ok).value ==> !ok(q[j])
    decreases |q|
  {
    if q != [] {
      FirstMatchSpec(q[1..], ok);
      assert forall i :: 0 < i < |q| ==> q[i] == q[1..][i - 1];
    }
  }

  /** `discover` after sending the request: it takes items off the queue,
      skipping everything that is not a sysex message and every sysex
      message that fails a parse layer, and builds the map from the first
      reply that passes. The result is the map and the items left on the
      queue; None means no reply is among the items (the source waits for
      more). */
  function Discover(q: seq<QueueItem>): Option<(ControlMap, seq<QueueItem>)>
  {
    match FirstMatch(q, IsSceneReply)
    case None => None
    case Some(i) => Some((BuildControlMap(ParseSceneDump(q[i].msg.data).value), q[i + 1..]))
  }

  /** Discovery finds nothing exactly when no item is a reply */
  lemma DiscoverNone(q: seq<QueueItem>)
    ensures Discover(q).None? <==> forall i :: 0 <= i < |q| ==> !IsSceneReply(q[i])
  {
    FirstMatchSpec(q, IsSceneReply);
  }

  /** When item i is the first reply, discovery builds the map from it and
      leaves exactly the items after it on the queue. */
  lemma DiscoverFirstReply(q: seq<QueueItem>, i: nat)
    requires i < |q| && IsFirstReply(q, i)
    ensures ParseSceneDump(q[i].msg.data).Some?
    ensures Discover(q) == Some((BuildControlMap(ParseSceneDump(q[i].msg.data).value), q[i + 1..]))
  {
    FirstMatchSpec(q, IsSceneReply);
  }

  /** Item i is a reply and no item before it is */
  predicate IsFirstReply(q: seq<QueueItem>, i: int)
    requires 0 <= i < |q|
  {
    IsSceneReply(q[i]) && forall j :: 0 <= j < i ==> !IsSceneReply(q[j])
  }

  /** A device reply built from well-formed scene parameters whose last four
      reserved bytes are zero (the packed form carries only 339 of the 343
      bytes): an envelope around a response header and the wire form of the
      first 339 parameter bytes. It is accepted and yields the same
      parameters. */
  lemma SceneDumpRoundTrip(p: DataDumpParams, m: KorgMessage, h: seq<Byte>)
    requires WellFormed(p)
    requires forall j :: ReservedSize - 4 <= j < ReservedSize ==> p.reserved[j] == 0
    requires |h| == ResponseHeaderSize
    requires m.data == h + Codec.WireForm(ParamsBytes(p)[..ParamsSize - 4])
    ensures ParseSceneDump(KorgMessageBytes(m)) == Some(p)
  {
    var x := ParamsBytes(p);
    var y := x[..ParamsSize - 4];
    assert m.data == h + Codec.WireForm(y) + [];
    ResponseOfWireForm(h, y, []);
    ReservedTailZero(p);
    SceneDumpOfResponse(m, DataDumpResponse(h[0], h[1], h[2], h[3], x));
    ParseParamsBytes(p);
  }

  /** A scene dump is read from the response its envelope carries */
  lemma SceneDumpOfResponse(m: KorgMessage, resp: DataDumpResponse)
    requires ParseDataDumpResponse(m.data) == Some(resp)
    ensures ParseSceneDump(KorgMessageBytes(m)) == ParseDataDumpParams(resp.data)
  {
    ParseKorgMessageBytes(m);
  }

  /** Dropping the last four bytes of a layout whose last four reserved
      bytes are zero and padding with four zeros gives the layout back */
  lemma ReservedTailZero(p: DataDumpParams)
    requires WellFormed(p)
    requires forall j :: ReservedSize - 4 <= j < ReservedSize ==> p.reserved[j] == 0
    ensures ParamsBytes(p)[..ParamsSize - 4] + Codec.Zeros(4) == ParamsBytes(p)
  {
    var x := ParamsBytes(p);
    ParamsBytesReserved(p);
    forall j | ParamsSize - 4 <= j < ParamsSize
      ensures x[j] == 0
    {
      assert x[j] == p.reserved[j - ReservedOffset];
    }
  }

  // ---------------------------------------------------------------------
  // The event queue

  /** `handle_midi_event`: the items it puts on the queue */
  function HandleMidiEvent(messages: map<Address, ControlSpec>, msg: MidiMessage): (r: seq<QueueItem>)
    ensures |r| <= 1
    ensures r != [] <==> msg.ControlChange? && (msg.channel, msg.control) in messages
    ensures r != [] ==> r[0] == ControlItem(ControlEvent(messages[(msg.channel, msg.control)], msg.value))
  {
    match msg
    case ControlChange(channel, control, value) =>
      if (channel, control) in messages then [ControlItem(ControlEvent(messages[(channel, control)], value))]
      else []
    case _ => []
  }

  /** What handling one item puts on the queue: MIDI items go through
      `handle_midi_event`; the pulse and control branches do nothing. */
  function Handle(messages: map<Address, ControlSpec>, item: QueueItem): seq<QueueItem> {
    if item.MidiItem? then HandleMidiEvent(messages, item.msg) else []
  }

  /** Everything handling the items, in order, puts on the queue */
  function Derived(messages: map<Address, ControlSpec>, items: seq<QueueItem>): seq<QueueItem>
    decreases |items|
  {
    if items == [] then []
    else Derived(messages, items[..|items| - 1]) + Handle(messages, items[|items| - 1])
  }

  lemma {:induction false} DerivedAppend(messages: map<Address, ControlSpec>, a: seq<QueueItem>, b: seq<QueueItem>)
    ensures Derived(messages, a + b) == Derived(messages, a) + Derived(messages, b)
    decreases |b|
  {
    if b == [] {
      assert a + b == a;
    } else {
      var n := |b| - 1;
      assert (a + b)[..|a + b| - 1] == a + b[..n];
      assert (a + b)[|a + b| - 1] == b[n];
      DerivedAppend(messages, a, b[..n]);
    }
  }

  /** Derived items are control events only */
  lemma {:induction false} DerivedAreControl(messages: map<Address, ControlSpec>, items: seq<QueueItem>)
    ensures forall i :: 0 <= i < |Derived(messages, items)| ==> Derived(messages, items)[i].ControlItem?
    decreases |items|
  {
    if items != [] {
      DerivedAreControl(messages, items[..|items| - 1]);
    }
  }

  /** Handling control events puts nothing on the queue */
  lemma {:induction false} DerivedOfControl(messages: map<Address, ControlSpec>, items: seq<QueueItem>)
    requires forall i :: 0 <= i < |items| ==> items[i].ControlItem?
    ensures Derived(messages, items) == []
    decreases |items|
  {
    if items != [] {
      DerivedOfControl(messages, items[..|items| - 1]);
    }
  }

  /** The number of steps left: a MIDI item costs two, because handling it
      may add one control event, which costs one. */
  function Weight(q: seq<QueueItem>): nat
    decreases |q|
  {
    if q == [] then 0 else (if q[0].MidiItem? then 2 else 1) + Weight(q[1..])
  }

  lemma {:induction false} WeightAppend(a: seq<QueueItem>, b: seq<QueueItem>)
    ensures Weight(a + b) == Weight(a) + Weight(b)
    decreases |a|
  {
    if a == [] {
      assert a + b == b;
    } else {
      assert (a + b)[1..] == a[1..] + b;
      WeightAppend(a[1..], b);
    }
  }

  /** One step of the drain keeps every item accounted for: the items
      handled and the items queued are the initial queue followed by what
      handling has added. */
  lemma DrainStep(messages: map<Address, ControlSpec>, q: seq<QueueItem>,
                  handled: seq<QueueItem>, item: QueueItem, rest: seq<QueueItem>)
    requires handled + ([item] + rest) == q + Derived(messages, handled)
    ensures (handled + [item]) + (rest + Handle(messages, item)) == q + Derived(messages, handled + [item])
  {
    DerivedAppend(messages, handled, [item]);
    DerivedSingle(messages, item);
    ShiftItem(handled, item, rest, q, Derived(messages, handled), Handle(messages, item));
  }

  /** Moving the front of the queue to the end of the handled items, and
      queueing e, adds e at the end */
  lemma ShiftItem<T>(h: seq<T>, x: T, rest: seq<T>, q: seq<T>, d: seq<T>, e: seq<T>)
    requires h + ([x] + rest) == q + d
    ensures (h + [x]) + (rest + e) == q + (d + e)
  {
    calc {
      (h + [x]) + (rest + e);
      (h + ([x] + rest)) + e;
      (q + d) + e;
    }
  }

  lemma DerivedSingle(messages: map<Address, ControlSpec>, item: QueueItem)
    ensures Derived(messages, [item]) == Handle(messages, item)
  {
    assert [item][..0] == [];
  }

  /** Each step uses up weight, so the drain ends */
  lemma DrainStepWeight(messages: map<Address, ControlSpec>, item: QueueItem, rest: seq<QueueItem>)
    ensures Weight(rest + Handle(messages, item)) < Weight([item] + rest)
  {
    WeightAppend(rest, Handle(messages, item));
    assert ([item] + rest)[1..] == rest;
  }

  /** Once the queue is empty the handled items are the initial queue and
      the events its MIDI items produced */
  lemma DrainDone(messages: map<Address, ControlSpec>, q: seq<QueueItem>, handled: seq<QueueItem>)
    requires handled == q + Derived(messages, handled)
    ensures handled == q + Derived(messages, q)
  {
    var d := Derived(messages, handled);
    DerivedAppend(messages, q, d);
    DerivedAreControl(messages, handled);
    DerivedOfControl(messages, d);
    calc {
      d;
      Derived(messages, q + d);
      Derived(messages, q) + Derived(messages, d);
      Derived(messages, q) + [];
      Derived(messages, q);
    }
  }

  /** `process_q`: takes items off the front of the queue until it is
      empty, handling each; control events that handling adds are taken
      off in the same drain. Returns the items in the order they were
      handled. */
  method ProcessQueue(messages: map<Address, ControlSpec>, q: seq<QueueItem>) returns (handled: seq<QueueItem>)
    ensures handled == q + Derived(messages, q)
  {
    var queue := q;
    handled := [];
    while queue != []
      invariant handled + queue == q + Derived(messages, handled)
      decreases Weight(queue)
    {
      var item := queue[0];
      assert queue == [item] + queue[1..];
      DrainStep(messages, q, handled, item, queue[1..]);
      DrainStepWeight(messages, item, queue[1..]);
      handled := handled + [item];
      queue := queue[1..] + Handle(messages, item);
    }
    DrainDone(messages, q, handled);
  }

  // ---------------------------------------------------------------------
  // LED commands

  /** The `control_change` message `set_led` sends */
  datatype LedCommand = LedCommand(channel: Byte, control: Byte, value: Byte)

  /** `127 if value else 0` */
  function LedValue(on: bool): Byte {
    if on then 127 else 0
  }

  /** The message that switches the LED of the given control */
  function Command(c: ControlSpec, on: bool): LedCommand {
    LedCommand(c.channel, c.control, LedValue(on))
  }

  /** Whether `mido.Message('control_change', ...)` accepts the spec's
      address: a channel of at most 15 and a control number of at most 127 */
  predicate Sendable(c: ControlSpec) {
    c.channel <= 15 && c.control <= 127
  }

  /** Every spec in the list is sendable */
  predicate AllSendable(specs: seq<ControlSpec>) {
    forall i :: 0 <= i < |specs| ==> Sendable(specs[i])
  }

  /** `set_led(name, value)`: None is the KeyError of `self.controls[name]`
      or the ValueError `mido.Message` raises for an address out of range */
  function SetLed(controls: OrderedDict.Dict<string, ControlSpec>, name: string, on: bool): (r: Option<LedCommand>)
    ensures r.Some? <==> name in OrderedDict.Keys(controls) && Sendable(OrderedDict.Get(controls, name).value)
    ensures r.Some? ==> r.value.channel == OrderedDict.Get(controls, name).value.channel
    ensures r.Some? ==> r.value.control == OrderedDict.Get(controls, name).value.control
    ensures r.Some? ==> r.value.value == (if on then 127 else 0)
  {
    match OrderedDict.Get(controls, name)
    case None => None
    case Some(c) => if Sendable(c) then Some(Command(c, on)) else None
  }

  /** One loop of `led_test` over the given items of `controls`: `set_led`
      for every item whose spec has an LED, in order; None if a lookup
      or a message constructor raises. */
  function LedPass(controls: OrderedDict.Dict<string, ControlSpec>,
                   items: OrderedDict.Dict<string, ControlSpec>, on: bool): Option<seq<LedCommand>>
    decreases |items|
  {
    if items == [] then Some([])
    else
      match LedPass(controls, items[..|items| - 1], on)
      case None => None
      case Some(cs) =>
        var item := items[|items| - 1];
        if !item.1.led then Some(cs)
        else
          match SetLed(controls, item.0, on)
          case None => None
          case Some(c) => Some(cs + [c])
  }

  /** `led_test`: every LED on, in dict order, then every LED off */
  function LedTest(controls: OrderedDict.Dict<string, ControlSpec>): Option<seq<LedCommand>> {
    match LedPass(controls, controls, true)
    case None => None
    case Some(ons) =>
      match LedPass(controls, controls, false)
      case None => None
      case Some(offs) => Some(ons + offs)
  }

  /** Reference: the specs with an LED, in dict order */
  function LedSpecs(d: OrderedDict.Dict<string, ControlSpec>): (r: seq<ControlSpec>)
    ensures |r| <= |d|
    decreases |d|
  {
    if d == [] then []
    else LedSpecs(d[..|d| - 1]) + (if d[|d| - 1].1.led then [d[|d| - 1].1] else [])
  }

  /** Reference: the command for each spec, in order */
  function Commands(specs: seq<ControlSpec>, on: bool): (r: seq<LedCommand>)
    ensures |r| == |specs|
  {
    seq(|specs|, i requires 0 <= i < |specs| => Command(specs[i], on))
  }

  lemma {:induction false} LedSpecsAppend(a: OrderedDict.Dict<string, ControlSpec>, b: OrderedDict.Dict<string, ControlSpec>)
    ensures LedSpecs(a + b) == LedSpecs(a) + LedSpecs(b)
    decreases |b|
  {
    if b == [] {
      assert a + b == a;
    } else {
      var n := |b| - 1;
      assert (a + b)[..|a + b| - 1] == a + b[..n];
      assert (a + b)[|a + b| - 1] == b[n];
      LedSpecsAppend(a, b[..n]);
    }
  }

  /** A pass over items that all look up to themselves sends one command
      per LED spec, in order, when every LED spec is sendable, and raises
      otherwise. */
  lemma {:induction false} LedPassFound(controls: OrderedDict.Dict<string, ControlSpec>,
                                        items: OrderedDict.Dict<string, ControlSpec>, on: bool)
    requires forall i :: 0 <= i < |items| ==> OrderedDict.Get(controls, items[i].0) == Some(items[i].1)
    ensures LedPass(controls, items, on)
      == if AllSendable(LedSpecs(items)) then Some(Commands(LedSpecs(items), on)) else None
    decreases |items|
  {
    if items != [] {
      var n := |items| - 1;
      assert forall i :: 0 <= i < n ==> items[..n][i] == items[i];
      LedPassFound(controls, items[..n], on);
      var sp := LedSpecs(items[..n]);
      var x := items[n].1;
      var last := if x.led then [x] else [];
      assert LedSpecs(items) == sp + last;
      AllSendableAppend(sp, last);
      if AllSendable(sp) {
        LedPassLast(controls, items, on, Commands(sp, on));
        if x.led {
          assert last == [x] && last[0] == x;
          CommandsAppend(sp, x, on);
        } else {
          assert sp + last == sp;
        }
      } else {
        LedPassPrefixFails(controls, items, on);
      }
    }
  }

  /** The last item of a pass adds its command when it has an LED and
      looks up to itself, and raises when its address is out of range */
  lemma LedPassLast(controls: OrderedDict.Dict<string, ControlSpec>,
                    items: OrderedDict.Dict<string, ControlSpec>, on: bool, cs: seq<LedCommand>)
    requires items != []
    requires LedPass(controls, items[..|items| - 1], on) == Some(cs)
    requires OrderedDict.Get(controls, items[|items| - 1].0) == Some(items[|items| - 1].1)
    ensures LedPass(controls, items, on)
      == if !items[|items| - 1].1.led then Some(cs)
         else if Sendable(items[|items| - 1].1) then Some(cs + [Command(items[|items| - 1].1, on)])
         else None
  {
  }

  /** Once a pass has raised, the rest of it does not run */
  lemma LedPassPrefixFails(controls: OrderedDict.Dict<string, ControlSpec>,
                           items: OrderedDict.Dict<string, ControlSpec>, on: bool)
    requires items != []
    requires LedPass(controls, items[..|items| - 1], on).None?
    ensures LedPass(controls, items, on).None?
  {
  }

  lemma AllSendableAppend(a: seq<ControlSpec>, b: seq<ControlSpec>)
    ensures AllSendable(a + b) <==> AllSendable(a) && AllSendable(b)
  {
    if AllSendable(a) && AllSendable(b) {
      forall i | 0 <= i < |a + b|
        ensures Sendable((a + b)[i])
      {
        if i >= |a| {
          assert (a + b)[i] == b[i - |a|];
        }
      }
    }
    if AllSendable(a + b) {
      forall i | 0 <= i < |a|
        ensures Sendable(a[i])
      {
        assert (a + b)[i] == a[i];
      }
      forall i | 0 <= i < |b|
        ensures Sendable(b[i])
      {
        assert (a + b)[|a| + i] == b[i];
      }
    }
  }

  lemma CommandsAppend(sp: seq<ControlSpec>, x: ControlSpec, on: bool)
    ensures Commands(sp + [x], on) == Commands(sp, on) + [Command(x, on)]
  {
  }

  /** On a dict without duplicate keys (every Python dict), `led_test`
      switches every LED on in dict order and then every LED off in the
      same order, and raises exactly when some LED has an address the
      message constructor rejects. */
  lemma LedTestSpec(controls: OrderedDict.Dict<string, ControlSpec>)
    requires OrderedDict.UniqueKeys(controls)
    ensures LedTest(controls) ==
      if AllSendable(LedSpecs(controls))
      then Some(Commands(LedSpecs(controls), true) + Commands(LedSpecs(controls), false))
      else None
  {
    forall i | 0 <= i < |controls|
      ensures OrderedDict.Get(controls, controls[i].0) == Some(controls[i].1)
    {
      OrderedDict.GetAt(controls, i);
    }
    LedPassFound(controls, controls, true);
    LedPassFound(controls, controls, false);
  }

  /** The controls with an LED: solo, mute and rec of each group */
  const LedKinds: seq<GroupControlKind> := [Solo, Mute, Rec]

  /** The LED controls of groups 0 to n - 1 in `controls` order: group by
      group, solo, mute, rec within a group */
  function LedsOfGroups(p: DataDumpParams, n: nat): (r: seq<ControlSpec>)
    requires WellFormed(p) && n <= GroupCount
    ensures |r| == 3 * n
  {
    if n == 0 then []
    else LedsOfGroups(p, n - 1) + [GroupSpec(p, n - 1, Solo), GroupSpec(p, n - 1, Mute), GroupSpec(p, n - 1, Rec)]
  }

  /** The 24 LED controls of the device */
  function LedOrder(p: DataDumpParams): (r: seq<ControlSpec>)
    requires WellFormed(p)
    ensures |r| == 24
  {
    LedsOfGroups(p, GroupCount)
  }

  /** LED i is control i % 3 of LedKinds in group i / 3 (the 3 is the
      length of LedKinds, written out so that the arithmetic is linear) */
  lemma {:induction false} LedsOfGroupsIndex(p: DataDumpParams, n: nat, i: nat)
    requires WellFormed(p) && n <= GroupCount && i < 3 * n
    ensures i / 3 < GroupCount
    ensures LedsOfGroups(p, n)[i] == GroupSpec(p, i / 3, LedKinds[i % 3])
    decreases n
  {
    if i < 3 * (n - 1) {
      LedsOfGroupsIndex(p, n - 1, i);
    } else {
      assert i / 3 == n - 1;
    }
  }

  /** One more item adds its spec when it has an LED */
  lemma LedSpecsSnoc(d: OrderedDict.Dict<string, ControlSpec>, x: (string, ControlSpec))
    ensures LedSpecs(d + [x]) == LedSpecs(d) + if x.1.led then [x.1] else []
  {
    assert (d + [x])[..|d|] == d;
  }

  /** A five-item dict with LEDs on its last three items */
  lemma LedsOfFive(d: OrderedDict.Dict<string, ControlSpec>)
    requires |d| == 5 && !d[0].1.led && !d[1].1.led && d[2].1.led && d[3].1.led && d[4].1.led
    ensures LedSpecs(d) == [d[2].1, d[3].1, d[4].1]
  {
    var d1 := [] + [d[0]];
    var d2 := d1 + [d[1]];
    var d3 := d2 + [d[2]];
    var d4 := d3 + [d[3]];
    assert d == d4 + [d[4]];
    LedSpecsSnoc([], d[0]);
    assert LedSpecs(d1) == [];
    LedSpecsSnoc(d1, d[1]);
    assert LedSpecs(d2) == [];
    LedSpecsSnoc(d2, d[2]);
    assert LedSpecs(d3) == [d[2].1];
    LedSpecsSnoc(d3, d[3]);
    assert LedSpecs(d4) == [d[2].1, d[3].1];
    LedSpecsSnoc(d4, d[4]);
  }

  lemma GroupLeds(p: DataDumpParams, g: nat)
    requires WellFormed(p) && g < GroupCount
    ensures LedSpecs(Pairs(GroupSpecs(p, g))) == [GroupSpec(p, g, Solo), GroupSpec(p, g, Mute), GroupSpec(p, g, Rec)]
  {
    var d := Pairs(GroupSpecs(p, g));
    assert d[0].1 == GroupSpec(p, g, Slider);
    assert d[1].1 == GroupSpec(p, g, Knob);
    assert d[2].1 == GroupSpec(p, g, Solo);
    assert d[3].1 == GroupSpec(p, g, Mute);
    assert d[4].1 == GroupSpec(p, g, Rec);
    LedsOfFive(d);
  }

  lemma {:induction false} NoLeds(d: OrderedDict.Dict<string, ControlSpec>)
    requires forall i :: 0 <= i < |d| ==> !d[i].1.led
    ensures LedSpecs(d) == []
    decreases |d|
  {
    if d != [] {
      var n := |d| - 1;
      assert forall i :: 0 <= i < n ==> d[..n][i] == d[i];
      NoLeds(d[..n]);
    }
  }

  /** The LED specs among the first sixteen controls are those of group 0 */
  lemma LedsOfFirstGroup(p: DataDumpParams)
    requires WellFormed(p)
    ensures LedSpecs(Pairs(ControlsOrder(p)[..16])) == LedsOfGroups(p, 1)
  {
    OrderStart(p);
    PairsAppend(GroupSpecs(p, 0), TransportSpecs(p));
    LedSpecsAppend(Pairs(GroupSpecs(p, 0)), Pairs(TransportSpecs(p)));
    GroupLeds(p, 0);
    NoLeds(Pairs(TransportSpecs(p)));
  }

  /** The LED specs among the controls before group g are the LEDs of
      groups 0 to g - 1 */
  lemma {:induction false} LedsUpTo(p: DataDumpParams, g: nat)
    requires WellFormed(p) && 1 <= g <= GroupCount
    ensures LedSpecs(Pairs(ControlsOrder(p)[..11 + 5 * g])) == LedsOfGroups(p, g)
    decreases g
  {
    if g == 1 {
      LedsOfFirstGroup(p);
    } else {
      var h := g - 1;
      var c := ControlsOrder(p);
      LedsUpTo(p, h);
      OrderStep(p, h);
      PairsAppend(c[..11 + 5 * h], GroupSpecs(p, h));
      LedSpecsAppend(Pairs(c[..11 + 5 * h]), Pairs(GroupSpecs(p, h)));
      GroupLeds(p, h);
    }
  }

  /** On the built map, `led_test` sends 48 commands: the 24 LED controls
      switched on, group by group and solo, mute, rec within a group, each
      on its resolved channel and control number, then the same 24
      switched off in the same order. It raises instead when one of the 24
      has an address out of range. */
  lemma LedTestOfBuiltMap(p: DataDumpParams)
    requires WellFormed(p)
    ensures LedTest(BuildControlMap(p).controls) ==
      if AllSendable(LedOrder(p))
      then Some(Commands(LedOrder(p), true) + Commands(LedOrder(p), false))
      else None
    ensures AllSendable(LedOrder(p)) ==> |LedTest(BuildControlMap(p).controls).value| == 48
  {
    var d := BuildControlMap(p).controls;
    BuiltLedSpecs(p);
    LedTestSpec(d);
    var o := LedOrder(p);
    assert LedSpecs(d) == o;
    if AllSendable(o) {
      assert |Commands(o, true) + Commands(o, false)| == 48;
    }
  }

  /** The built `controls` dict has no repeated name, and its LED specs
      are the 24 LED controls in order */
  lemma BuiltLedSpecs(p: DataDumpParams)
    requires WellFormed(p)
    ensures OrderedDict.UniqueKeys(BuildControlMap(p).controls)
    ensures LedSpecs(BuildControlMap(p).controls) == LedOrder(p)
  {
    var c := ControlsOrder(p);
    BuildControls(p);
    UniqueNames(p, ControlCount);
    assert c[..ControlCount] == c;
    LedsUpTo(p, GroupCount);
  }

  /** The 24 LED controls are sendable exactly when solo, mute and rec of
      every group have a resolved channel of at most 15 and a control
      number of at most 127 */
  lemma LedOrderSendable(p: DataDumpParams)
    requires WellFormed(p)
    ensures AllSendable(LedOrder(p)) <==>
      forall g, j :: 0 <= g < GroupCount && 0 <= j < 3 ==> Sendable(GroupSpec(p, g, LedKinds[j]))
  {
    var o := LedOrder(p);
    if AllSendable(o) {
      forall g, j | 0 <= g < GroupCount && 0 <= j < 3
        ensures Sendable(GroupSpec(p, g, LedKinds[j]))
      {
        var i := 3 * g + j;
        assert i / 3 == g && i % 3 == j;
        LedsOfGroupsIndex(p, GroupCount, i);
        assert Sendable(o[i]);
      }
    }
    if forall g, j :: 0 <= g < GroupCount && 0 <= j < 3 ==> Sendable(GroupSpec(p, g, LedKinds[j])) {
      forall i | 0 <= i < |o|
        ensures Sendable(o[i])
      {
        LedsOfGroupsIndex(p, GroupCount, i);
      }
    }
  }
}
