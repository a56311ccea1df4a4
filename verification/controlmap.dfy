/** The control map of watchpulse.py (`build_control_map`): from the scene
    parameters the device reports, a spec for every control, kept in two
    dicts: `controls`, keyed by control name in insertion order, and
    `messages`, keyed by the (channel, control number) pair the control
    sends. */
module ControlMap {
  import opened Bits
  import opened Wrappers
  import opened Layout
  import OrderedDict

  /** `'variable'` (slider, knob) or `'button'` */
  datatype ControlType = Variable | Button

  /** The dict built for each control */
  datatype ControlSpec = ControlSpec(
    name: string,
    channel: Byte,
    control: Byte,
    controlType: ControlType,
    led: bool)

  /** The (channel, control number) key of `messages` */
  type Address = (int, int)

  function AddressOf(s: ControlSpec): Address {
    (s.channel, s.control)
  }

  datatype ControlMap = ControlMap(
    controls: OrderedDict.Dict<string, ControlSpec>,
    messages: map<Address, ControlSpec>)

  /** `transport_control_names`, in the order of the transport records */
  const TransportControlNames: seq<string> := [
    "prev_track", "next_track", "cycle", "market_set", "prev_marker",
    "next_marker", "rew", "ff", "stop", "play", "rec"]

  /** The group controls in the order the builder visits them */
  const GroupKinds: seq<GroupControlKind> := [Slider, Knob, Solo, Mute, Rec]

  function KindLabel(k: GroupControlKind): string {
    match k
    case Slider => "slider"
    case Knob => "knob"
    case Solo => "solo"
    case Mute => "mute"
    case Rec => "rec"
  }

  /** The decimal digit of a group number below ten */
  function DigitChar(g: nat): char
    requires g < 10
  {
    (('0' as int) + g) as char
  }

  /** `'{}-group-{}'.format(control, group)` */
  function GroupName(k: GroupControlKind, g: nat): string
    requires g < GroupCount
  {
    KindLabel(k) + "-group-" + [DigitChar(g)]
  }

  /** `'transport-{}'.format(control)` */
  function TransportName(t: nat): string
    requires t < TransportButtonCount
  {
    "transport-" + TransportControlNames[t]
  }

  /** A group or transport channel of 0x10 means "use the global channel" */
  function ResolveChannel(global: Byte, channel: Byte): Byte {
    if channel == 0x10 then global else channel
  }

  /** Solo, mute and rec are buttons with an LED; slider and knob are not */
  predicate IsButton(k: GroupControlKind) {
    k == Solo || k == Mute || k == Rec
  }

  /** The spec of control k of group g */
  function GroupSpec(p: DataDumpParams, g: nat, k: GroupControlKind): ControlSpec
    requires WellFormed(p) && g < GroupCount
  {
    ControlSpec(
      GroupName(k, g),
      ResolveChannel(p.common.globalMidiChannel, p.groups[g].midiChannel),
      ControlNumber(p.groups[g], k),
      if IsButton(k) then Button else Variable,
      IsButton(k))
  }

  /** The spec of transport button t: always a button, never an LED */
  function TransportSpec(p: DataDumpParams, t: nat): ControlSpec
    requires WellFormed(p) && t < TransportButtonCount
  {
    ControlSpec(
      TransportName(t),
      ResolveChannel(p.common.globalMidiChannel, p.transport.midiChannel),
      p.transport.controls[t].controlNumber,
      Button,
      false)
  }

  function GroupSpecs(p: DataDumpParams, g: nat): (r: seq<ControlSpec>)
    requires WellFormed(p) && g < GroupCount
    ensures |r| == 5
  {
    seq(5, i requires 0 <= i < 5 => GroupSpec(p, g, GroupKinds[i]))
  }

  function TransportSpecs(p: DataDumpParams): (r: seq<ControlSpec>)
    requires WellFormed(p)
    ensures |r| == TransportButtonCount
  {
    seq(TransportButtonCount, t requires 0 <= t < TransportButtonCount => TransportSpec(p, t))
  }

  /** The order of the stores: the transport block sits inside the group
      loop, so after every group's five controls come the eleven transport
      controls again. */
  function Schedule(p: DataDumpParams, g: nat): seq<ControlSpec>
    requires WellFormed(p) && g <= GroupCount
    decreases GroupCount - g
  {
    if g == GroupCount then []
    else GroupSpecs(p, g) + TransportSpecs(p) + Schedule(p, g + 1)
  }

  /** `controls[name] = spec` for every spec, in order */
  function ControlsOf(specs: seq<ControlSpec>): OrderedDict.Dict<string, ControlSpec> {
    OrderedDict.PutAll([], Pairs(specs))
  }

  function Pairs(specs: seq<ControlSpec>): (r: seq<(string, ControlSpec)>)
    ensures |r| == |specs|
  {
    seq(|specs|, i requires 0 <= i < |specs| => (specs[i].name, specs[i]))
  }

  /** `messages[k] = spec` for every spec, in order: a later store to the
      same key replaces an earlier one. */
  function StoreAll(m: map<Address, ControlSpec>, specs: seq<ControlSpec>): map<Address, ControlSpec>
    decreases |specs|
  {
    if specs == [] then m else StoreAll(m[AddressOf(specs[0]) := specs[0]], specs[1..])
  }

  /** `build_control_map`: the two dicts are filled by the same stores, and
      neither store reads the other dict, so each is the fold of the
      schedule on its own. */
  function BuildControlMap(p: DataDumpParams): ControlMap
    requires WellFormed(p)
  {
    var s := Schedule(p, 0);
    ControlMap(ControlsOf(s), StoreAll(map[], s))
  }

  // ---------------------------------------------------------------------
  // Names

  lemma GroupNameShape(k: GroupControlKind, g: nat)
    requires g < GroupCount
    ensures |GroupName(k, g)| == |KindLabel(k)| + 8
    ensures GroupName(k, g)[0] == KindLabel(k)[0]
    ensures GroupName(k, g)[|KindLabel(k)| + 7] == DigitChar(g)
  {
  }

  /** Different controls get different names */
  lemma GroupNameInjective(k: GroupControlKind, g: nat, k': GroupControlKind, g': nat)
    requires g < GroupCount && g' < GroupCount
    requires GroupName(k, g) == GroupName(k', g')
    ensures k == k' && g == g'
  {
    GroupNameShape(k, g);
    GroupNameShape(k', g');
    assert |KindLabel(k)| == |KindLabel(k')| && KindLabel(k)[0] == KindLabel(k')[0];
    assert DigitChar(g) == DigitChar(g');
  }

  lemma TransportNameInjective(t: nat, t': nat)
    requires t < TransportButtonCount && t' < TransportButtonCount
    requires TransportName(t) == TransportName(t')
    ensures t == t'
  {
    assert TransportName(t)[10..] == TransportControlNames[t];
    assert TransportName(t')[10..] == TransportControlNames[t'];
  }

  /** No group control is named like a transport control */
  lemma GroupTransportDistinct(k: GroupControlKind, g: nat, t: nat)
    requires g < GroupCount && t < TransportButtonCount
    ensures GroupName(k, g) != TransportName(t)
  {
    GroupNameShape(k, g);
    assert TransportName(t)[0] == 't';
  }

  // ---------------------------------------------------------------------
  // The controls dict

  /** Number of controls: five in each of eight groups, eleven transport */
  const ControlCount := 5 * GroupCount + TransportButtonCount

  /** The control at position i of the `controls` dict: group 0, then the
      transport block (stored first right after group 0), then groups 1 to
      7. Later transport stores hit keys already present and keep their
      position. */
  function Slot(p: DataDumpParams, i: nat): ControlSpec
    requires WellFormed(p) && i < ControlCount
  {
    if i < 5 then GroupSpec(p, 0, GroupKinds[i])
    else if i < 16 then TransportSpec(p, i - 5)
    else GroupSpec(p, (i - 16) / 5 + 1, GroupKinds[(i - 16) % 5])
  }

  function ControlsOrder(p: DataDumpParams): (r: seq<ControlSpec>)
    requires WellFormed(p)
    ensures |r| == ControlCount
  {
    seq(ControlCount, i requires 0 <= i < ControlCount => Slot(p, i))
  }

  predicate IsGroupSlot(i: nat) {
    i < 5 || 16 <= i < ControlCount
  }

  function SlotGroup(i: nat): (g: nat)
    requires IsGroupSlot(i)
    ensures g < GroupCount
  {
    if i < 5 then 0 else (i - 16) / 5 + 1
  }

  function SlotKind(i: nat): (k: nat)
    requires IsGroupSlot(i)
    ensures k < 5
  {
    if i < 5 then i else (i - 16) % 5
  }

  lemma SlotIsGroup(p: DataDumpParams, i: nat)
    requires WellFormed(p) && IsGroupSlot(i)
    ensures Slot(p, i) == GroupSpec(p, SlotGroup(i), GroupKinds[SlotKind(i)])
  {
  }

  /** A group slot is determined by its group and kind */
  lemma SlotPosition(i: nat, j: nat)
    requires IsGroupSlot(i) && IsGroupSlot(j)
    requires SlotGroup(i) == SlotGroup(j) && SlotKind(i) == SlotKind(j)
    ensures i == j
  {
  }

  lemma GroupKindsDistinct(a: nat, b: nat)
    requires a < 5 && b < 5 && GroupKinds[a] == GroupKinds[b]
    ensures a == b
  {
  }

  /** Every control has its own name */
  lemma SlotNamesDistinct(p: DataDumpParams, i: nat, j: nat)
    requires WellFormed(p) && i < ControlCount && j < ControlCount
    requires Slot(p, i).name == Slot(p, j).name
    ensures i == j
  {
    if IsGroupSlot(i) && IsGroupSlot(j) {
      GroupSlotNamesDistinct(p, i, j);
    } else if IsGroupSlot(i) {
      GroupNotTransportSlot(p, i, j);
    } else if IsGroupSlot(j) {
      GroupNotTransportSlot(p, j, i);
    } else {
      assert Slot(p, i) == TransportSpec(p, i - 5);
      assert Slot(p, j) == TransportSpec(p, j - 5);
      TransportNameInjective(i - 5, j - 5);
    }
  }

  lemma GroupSlotNamesDistinct(p: DataDumpParams, i: nat, j: nat)
    requires WellFormed(p) && IsGroupSlot(i) && IsGroupSlot(j)
    requires Slot(p, i).name == Slot(p, j).name
    ensures i == j
  {
    SlotIsGroup(p, i);
    SlotIsGroup(p, j);
    GroupNameInjective(GroupKinds[SlotKind(i)], SlotGroup(i), GroupKinds[SlotKind(j)], SlotGroup(j));
    GroupKindsDistinct(SlotKind(i), SlotKind(j));
    SlotPosition(i, j);
  }

  lemma GroupNotTransportSlot(p: DataDumpParams, i: nat, j: nat)
    requires WellFormed(p) && IsGroupSlot(i) && j < ControlCount && !IsGroupSlot(j)
    ensures Slot(p, i).name != Slot(p, j).name
  {
    SlotIsGroup(p, i);
    assert Slot(p, j) == TransportSpec(p, j - 5);
    GroupTransportDistinct(GroupKinds[SlotKind(i)], SlotGroup(i), j - 5);
  }

  lemma UniqueNames(p: DataDumpParams, n: nat)
    requires WellFormed(p) && n <= ControlCount
    ensures OrderedDict.UniqueKeys(Pairs(ControlsOrder(p)[..n]))
  {
    var d := Pairs(ControlsOrder(p)[..n]);
    forall i, j | 0 <= i < j < |d|
      ensures d[i].0 != d[j].0
    {
      if d[i].0 == d[j].0 {
        SlotNamesDistinct(p, i, j);
      }
    }
  }

  lemma PairsAppend(a: seq<ControlSpec>, b: seq<ControlSpec>)
    ensures Pairs(a + b) == Pairs(a) + Pairs(b)
  {
  }

  /** The first sixteen controls are group 0 and the transport block */
  lemma OrderStart(p: DataDumpParams)
    requires WellFormed(p)
    ensures ControlsOrder(p)[..16] == GroupSpecs(p, 0) + TransportSpecs(p)
  {
  }

  /** Group g (from 1 on) follows the 11 + 5g controls before it */
  lemma OrderStep(p: DataDumpParams, g: nat)
    requires WellFormed(p) && 1 <= g < GroupCount
    ensures ControlsOrder(p)[..16 + 5 * g] == ControlsOrder(p)[..11 + 5 * g] + GroupSpecs(p, g)
  {
    var c := ControlsOrder(p);
    forall j | 0 <= j < 5
      ensures c[11 + 5 * g + j] == GroupSpecs(p, g)[j]
    {
      assert (11 + 5 * g + j - 16) / 5 + 1 == g;
      assert (11 + 5 * g + j - 16) % 5 == j;
    }
  }

  /** The transport controls are stored at positions 5 to 15 */
  lemma TransportAlreadyStored(p: DataDumpParams, n: nat)
    requires WellFormed(p) && 16 <= n <= ControlCount
    ensures forall t :: 0 <= t < |TransportSpecs(p)| ==>
      OrderedDict.Get(Pairs(ControlsOrder(p)[..n]), Pairs(TransportSpecs(p))[t].0) == Some(Pairs(TransportSpecs(p))[t].1)
  {
    var d := Pairs(ControlsOrder(p)[..n]);
    UniqueNames(p, n);
    forall t | 0 <= t < TransportButtonCount
      ensures OrderedDict.Get(d, Pairs(TransportSpecs(p))[t].0) == Some(Pairs(TransportSpecs(p))[t].1)
    {
      OrderedDict.GetAt(d, 5 + t);
    }
  }

  /** The stores from group g on, made to the dict holding the controls
      before group g, leave exactly the controls in order. */
  lemma {:induction false} ControlsFrom(p: DataDumpParams, g: nat)
    requires WellFormed(p) && 1 <= g <= GroupCount
    ensures OrderedDict.PutAll(Pairs(ControlsOrder(p)[..11 + 5 * g]), Pairs(Schedule(p, g)))
      == Pairs(ControlsOrder(p))
    decreases GroupCount - g
  {
    var c := ControlsOrder(p);
    if g == GroupCount {
      assert c[..11 + 5 * g] == c;
    } else {
      ScheduleStep(p, g);
      assert 11 + 5 * (g + 1) == 16 + 5 * g;
      ControlsFrom(p, g + 1);
    }
  }

  /** Storing group g and then the transport again, into the dict holding
      the controls before group g, appends group g and nothing else. */
  lemma ScheduleStep(p: DataDumpParams, g: nat)
    requires WellFormed(p) && 1 <= g < GroupCount
    ensures OrderedDict.PutAll(Pairs(ControlsOrder(p)[..11 + 5 * g]), Pairs(Schedule(p, g)))
      == OrderedDict.PutAll(Pairs(ControlsOrder(p)[..16 + 5 * g]), Pairs(Schedule(p, g + 1)))
  {
    var c := ControlsOrder(p);
    var d := Pairs(c[..11 + 5 * g]);
    var d' := Pairs(c[..16 + 5 * g]);
    var gs, ts, rest := Pairs(GroupSpecs(p, g)), Pairs(TransportSpecs(p)), Pairs(Schedule(p, g + 1));
    PairsAppend(GroupSpecs(p, g) + TransportSpecs(p), Schedule(p, g + 1));
    PairsAppend(GroupSpecs(p, g), TransportSpecs(p));
    OrderedDict.PutAllAppend(d, gs + ts, rest);
    OrderedDict.PutAllAppend(d, gs, ts);
    OrderStep(p, g);
    PairsAppend(c[..11 + 5 * g], GroupSpecs(p, g));
    UniqueNames(p, 16 + 5 * g);
    OrderedDict.PutAllFresh(d, gs);
    TransportAlreadyStored(p, 16 + 5 * g);
    OrderedDict.PutAllSame(d', ts);
  }

  /** The `controls` dict holds the 51 controls, each once, in the order
      group 0, transport, groups 1 to 7. */
  lemma BuildControls(p: DataDumpParams)
    requires WellFormed(p)
    ensures BuildControlMap(p).controls == Pairs(ControlsOrder(p))
  {
    var gs, ts, rest := Pairs(GroupSpecs(p, 0)), Pairs(TransportSpecs(p)), Pairs(Schedule(p, 1));
    PairsAppend(GroupSpecs(p, 0) + TransportSpecs(p), Schedule(p, 1));
    PairsAppend(GroupSpecs(p, 0), TransportSpecs(p));
    OrderedDict.PutAllAppend([], gs + ts, rest);
    OrderStart(p);
    UniqueNames(p, 16);
    assert [] + (gs + ts) == gs + ts;
    OrderedDict.PutAllFresh([], gs + ts);
    ControlsFrom(p, 1);
  }

  /** The position of control k of group g in the `controls` dict */
  function GroupSlot(g: nat, k: GroupControlKind): (i: nat)
    requires g < GroupCount
    ensures i < ControlCount
  {
    if g == 0 then KindIndex(k) else 16 + 5 * (g - 1) + KindIndex(k)
  }

  lemma GroupSlotSpec(p: DataDumpParams, g: nat, k: GroupControlKind)
    requires WellFormed(p) && g < GroupCount
    ensures Slot(p, GroupSlot(g, k)) == GroupSpec(p, g, k)
  {
    var i := GroupSlot(g, k);
    var n := KindIndex(k);
    if g > 0 {
      assert i - 16 == 5 * (g - 1) + n;
      DivFive(g - 1, n);
    }
    assert IsGroupSlot(i) && SlotGroup(i) == g && SlotKind(i) == n;
    SlotIsGroup(p, i);
    assert GroupKinds[n] == k;
  }

  lemma DivFive(q: nat, r: nat)
    requires r < 5
    ensures (5 * q + r) / 5 == q && (5 * q + r) % 5 == r
  {
  }

  /** Every control is found in `controls` under its name, with its spec */
  lemma ControlsLookup(p: DataDumpParams, g: nat, k: GroupControlKind, t: nat)
    requires WellFormed(p) && g < GroupCount && t < TransportButtonCount
    ensures |BuildControlMap(p).controls| == ControlCount
    ensures OrderedDict.UniqueKeys(BuildControlMap(p).controls)
    ensures OrderedDict.Get(BuildControlMap(p).controls, GroupName(k, g)) == Some(GroupSpec(p, g, k))
    ensures OrderedDict.Get(BuildControlMap(p).controls, TransportName(t)) == Some(TransportSpec(p, t))
  {
    GroupSlotSpec(p, g, k);
    SlotLookup(p, GroupSlot(g, k));
    SlotLookup(p, 5 + t);
    assert Slot(p, 5 + t) == TransportSpec(p, t);
  }

  /** The control at each position is found under its own name */
  lemma SlotLookup(p: DataDumpParams, i: nat)
    requires WellFormed(p) && i < ControlCount
    ensures |BuildControlMap(p).controls| == ControlCount
    ensures OrderedDict.UniqueKeys(BuildControlMap(p).controls)
    ensures OrderedDict.Get(BuildControlMap(p).controls, Slot(p, i).name) == Some(Slot(p, i))
  {
    var d := BuildControlMap(p).controls;
    BuildControls(p);
    UniqueNames(p, ControlCount);
    assert ControlsOrder(p)[..ControlCount] == ControlsOrder(p);
    OrderedDict.GetAt(d, i);
    assert d[i] == (Slot(p, i).name, Slot(p, i));
  }

  // ---------------------------------------------------------------------
  // The messages dict

  /** Reference definition of last-write-wins: the last spec in the list
      whose key is the given one */
  function LastWith(specs: seq<ControlSpec>, key: Address): Option<ControlSpec>
    decreases |specs|
  {
    if specs == [] then None
    else if AddressOf(specs[|specs| - 1]) == key then Some(specs[|specs| - 1])
    else LastWith(specs[..|specs| - 1], key)
  }

  /** i is the last position in specs whose spec has the key */
  predicate IsLastIndex(specs: seq<ControlSpec>, key: Address, i: int) {
    && 0 <= i < |specs|
    && AddressOf(specs[i]) == key
    && forall j :: i < j < |specs| ==> AddressOf(specs[j]) != key
  }

  /** LastWith finds the last spec with the key, and finds one whenever
      there is one */
  lemma {:induction false} LastWithFound(specs: seq<ControlSpec>, key: Address)
    ensures LastWith(specs, key).None? <==> forall i :: 0 <= i < |specs| ==> AddressOf(specs[i]) != key
    ensures LastWith(specs, key).Some? ==>
      exists i :: IsLastIndex(specs, key, i) && specs[i] == LastWith(specs, key).value
    decreases |specs|
  {
    if specs != [] {
      var n := |specs| - 1;
      var init := specs[..n];
      LastWithFound(init, key);
      if AddressOf(specs[n]) != key {
        assert forall i :: 0 <= i < n ==> init[i] == specs[i];
        if LastWith(init, key).Some? {
          var i :| IsLastIndex(init, key, i) && init[i] == LastWith(init, key).value;
          assert specs[i] == init[i];
          assert IsLastIndex(specs, key, i);
        }
      }
    }
  }

  lemma {:induction false} LastWithAppend(a: seq<ControlSpec>, b: seq<ControlSpec>, key: Address)
    ensures LastWith(a + b, key) == if LastWith(b, key).Some? then LastWith(b, key) else LastWith(a, key)
    decreases |b|
  {
    if b == [] {
      assert a + b == a;
    } else {
      var n := |b| - 1;
      assert (a + b)[..|a + b| - 1] == a + b[..n];
      assert (a + b)[|a + b| - 1] == b[n];
      LastWithAppend(a, b[..n], key);
    }
  }

  /** The stores leave, under each key, the last spec stored with that key,
      or the earlier value when no spec has it. */
  lemma {:induction false} StoreAllLastWins(m: map<Address, ControlSpec>, specs: seq<ControlSpec>, key: Address)
    ensures key in StoreAll(m, specs) <==> key in m || LastWith(specs, key).Some?
    ensures key in StoreAll(m, specs) ==>
      StoreAll(m, specs)[key] == (if LastWith(specs, key).Some? then LastWith(specs, key).value else m[key])
    decreases |specs|
  {
    if specs != [] {
      var x := specs[0];
      StoreAllLastWins(m[AddressOf(x) := x], specs[1..], key);
      assert specs == [x] + specs[1..];
      LastWithAppend([x], specs[1..], key);
    }
  }

  /** Every spec stored is one of the 51 controls */
  lemma {:induction false} ScheduleInSlots(p: DataDumpParams, g: nat, n: nat)
    requires WellFormed(p) && g <= GroupCount && n < |Schedule(p, g)|
    ensures exists i :: 0 <= i < ControlCount && Slot(p, i) == Schedule(p, g)[n]
    decreases GroupCount - g
  {
    var gs, ts := GroupSpecs(p, g), TransportSpecs(p);
    var rest := Schedule(p, g + 1);
    assert Schedule(p, g) == gs + ts + rest;
    if n < 5 {
      GroupSlotSpec(p, g, GroupKinds[n]);
      assert Slot(p, GroupSlot(g, GroupKinds[n])) == Schedule(p, g)[n];
    } else if n < 16 {
      assert Slot(p, n) == Schedule(p, g)[n];
    } else {
      ScheduleInSlots(p, g + 1, n - 16);
    }
  }

  /** Every one of the 51 controls is stored */
  lemma {:induction false} SlotInSchedule(p: DataDumpParams, g: nat, i: nat)
    requires WellFormed(p) && g < GroupCount && i < ControlCount
    requires !IsGroupSlot(i) || g <= SlotGroup(i)
    ensures Slot(p, i) in Schedule(p, g)
    decreases GroupCount - g
  {
    var gs, ts := GroupSpecs(p, g), TransportSpecs(p);
    var rest := Schedule(p, g + 1);
    assert Schedule(p, g) == gs + ts + rest;
    if !IsGroupSlot(i) {
      assert Slot(p, i) == ts[i - 5];
    } else if SlotGroup(i) == g {
      SlotIsGroup(p, i);
      assert Slot(p, i) == gs[SlotKind(i)];
    } else {
      SlotInSchedule(p, g + 1, i);
    }
  }

  /** The last block stored is the transport block */
  lemma {:induction false} ScheduleEndsWithTransport(p: DataDumpParams, g: nat)
    requires WellFormed(p) && g < GroupCount
    ensures |Schedule(p, g)| >= TransportButtonCount
    ensures Schedule(p, g) == Schedule(p, g)[..|Schedule(p, g)| - TransportButtonCount] + TransportSpecs(p)
    decreases GroupCount - g
  {
    var gs, ts := GroupSpecs(p, g), TransportSpecs(p);
    if g == GroupCount - 1 {
      assert Schedule(p, g) == gs + ts;
    } else {
      var rest := Schedule(p, g + 1);
      ScheduleEndsWithTransport(p, g + 1);
      var n := |rest| - TransportButtonCount;
      assert Schedule(p, g) == (gs + ts + rest[..n]) + ts;
    }
  }

  /** `messages` holds, for each key, the spec stored last under it */
  lemma MessagesLastWins(p: DataDumpParams, key: Address)
    requires WellFormed(p)
    ensures key in BuildControlMap(p).messages <==> LastWith(Schedule(p, 0), key).Some?
    ensures key in BuildControlMap(p).messages ==>
      BuildControlMap(p).messages[key] == LastWith(Schedule(p, 0), key).value
  {
    StoreAllLastWins(map[], Schedule(p, 0), key);
  }

  /** The keys of `messages` are exactly the keys of the controls */
  lemma MessagesKeys(p: DataDumpParams, key: Address)
    requires WellFormed(p)
    ensures key in BuildControlMap(p).messages <==>
      exists i :: 0 <= i < ControlCount && AddressOf(Slot(p, i)) == key
  {
    var sched := Schedule(p, 0);
    MessagesLastWins(p, key);
    LastWithFound(sched, key);
    if key in BuildControlMap(p).messages {
      var n :| 0 <= n < |sched| && AddressOf(sched[n]) == key;
      ScheduleInSlots(p, 0, n);
    }
    if exists i :: 0 <= i < ControlCount && AddressOf(Slot(p, i)) == key {
      var i :| 0 <= i < ControlCount && AddressOf(Slot(p, i)) == key;
      SlotInSchedule(p, 0, i);
    }
  }

  /** A key that a transport control sends maps to a transport control: the
      transport block is stored again after every group, last after group
      7, so no group control can win such a key. */
  lemma TransportWins(p: DataDumpParams, t: nat)
    requires WellFormed(p) && t < TransportButtonCount
    ensures AddressOf(TransportSpec(p, t)) in BuildControlMap(p).messages
    ensures exists t' :: (t <= t' < TransportButtonCount &&
      BuildControlMap(p).messages[AddressOf(TransportSpec(p, t))] == TransportSpec(p, t'))
  {
    var key := AddressOf(TransportSpec(p, t));
    var sched := Schedule(p, 0);
    var ts := TransportSpecs(p);
    ScheduleEndsWithTransport(p, 0);
    LastWithAppend(sched[..|sched| - TransportButtonCount], ts, key);
    LastWithFound(ts, key);
    assert AddressOf(ts[t]) == key;
    MessagesLastWins(p, key);
    var i :| IsLastIndex(ts, key, i) && ts[i] == LastWith(ts, key).value;
    assert BuildControlMap(p).messages[key] == TransportSpec(p, i);
  }

  /** When the 51 controls send 51 different keys there are no collisions:
      each key maps to its own control. */
  lemma MessagesWithoutCollisions(p: DataDumpParams, i: nat)
    requires WellFormed(p) && i < ControlCount
    requires forall a, b :: 0 <= a < b < ControlCount ==> AddressOf(Slot(p, a)) != AddressOf(Slot(p, b))
    ensures AddressOf(Slot(p, i)) in BuildControlMap(p).messages
    ensures BuildControlMap(p).messages[AddressOf(Slot(p, i))] == Slot(p, i)
  {
    var key := AddressOf(Slot(p, i));
    var sched := Schedule(p, 0);
    MessagesLastWins(p, key);
    SlotInSchedule(p, 0, i);
    LastWithFound(sched, key);
    var n :| IsLastIndex(sched, key, n) && sched[n] == LastWith(sched, key).value;
    ScheduleInSlots(p, 0, n);
    var j :| 0 <= j < ControlCount && Slot(p, j) == sched[n];
    assert AddressOf(Slot(p, j)) == AddressOf(Slot(p, i));
    assert j == i;
  }

  // ---------------------------------------------------------------------
  // From the scene bytes

  /** For a scene parsed from 343 bytes, the spec stored under a group
      control's name carries the group's channel byte (or the global
      channel byte at offset 0 when it is 0x10) and the control number
      byte of its record; it is a button with an LED exactly for solo,
      mute and rec. */
  lemma GroupControlFromBytes(s: seq<Byte>, g: nat, k: GroupControlKind)
    requires |s| == ParamsSize && g < GroupCount
    ensures ParseDataDumpParams(s).Some?
    ensures var spec := OrderedDict.Get(BuildControlMap(ParseDataDumpParams(s).value).controls, GroupName(k, g));
      && spec.Some?
      && spec.value.channel == (if s[3 + 31 * g] == 0x10 then s[0] else s[3 + 31 * g])
      && spec.value.control == s[3 + 31 * g + 3 + 6 * KindIndex(k)]
      && (spec.value.controlType == Button <==> k in {Solo, Mute, Rec})
      && (spec.value.led <==> k in {Solo, Mute, Rec})
  {
    var p := ParseDataDumpParams(s).value;
    GroupSpecFromBytes(s, g, k);
    ControlsLookup(p, g, k, 0);
  }

  /** The spec of a group control, read from the bytes of the scene */
  lemma GroupSpecFromBytes(s: seq<Byte>, g: nat, k: GroupControlKind)
    requires |s| == ParamsSize && g < GroupCount
    ensures ParseDataDumpParams(s).Some?
    ensures var spec := GroupSpec(ParseDataDumpParams(s).value, g, k);
      && spec.channel == (if s[3 + 31 * g] == 0x10 then s[0] else s[3 + 31 * g])
      && spec.control == s[3 + 31 * g + 3 + 6 * KindIndex(k)]
      && (spec.controlType == Button <==> k in {Solo, Mute, Rec})
      && (spec.led <==> k in {Solo, Mute, Rec})
  {
    GroupChannelFromBytes(s, g, k);
    GroupNumberFromBytes(s, g, k);
  }

  lemma GroupChannelFromBytes(s: seq<Byte>, g: nat, k: GroupControlKind)
    requires |s| == ParamsSize && g < GroupCount
    ensures ParseDataDumpParams(s).Some?
    ensures GroupSpec(ParseDataDumpParams(s).value, g, k).channel
      == if s[3 + 31 * g] == 0x10 then s[0] else s[3 + 31 * g]
  {
    GroupFieldOffsets(s, g, k);
  }

  lemma GroupNumberFromBytes(s: seq<Byte>, g: nat, k: GroupControlKind)
    requires |s| == ParamsSize && g < GroupCount
    ensures ParseDataDumpParams(s).Some?
    ensures GroupSpec(ParseDataDumpParams(s).value, g, k).control == s[3 + 31 * g + 3 + 6 * KindIndex(k)]
  {
    GroupFieldOffsets(s, g, k);
  }

  /** The spec stored under a transport control's name carries the
      transport channel byte at offset 251 (or the global channel when it
      is 0x10) and the control number byte of its record; it is a button
      without an LED. */
  lemma TransportControlFromBytes(s: seq<Byte>, t: nat)
    requires |s| == ParamsSize && t < TransportButtonCount
    ensures ParseDataDumpParams(s).Some?
    ensures var spec := OrderedDict.Get(BuildControlMap(ParseDataDumpParams(s).value).controls, TransportName(t));
      && spec.Some?
      && spec.value.channel == (if s[251] == 0x10 then s[0] else s[251])
      && spec.value.control == s[251 + 3 + 6 * t]
      && spec.value.controlType == Button
      && !spec.value.led
  {
    var p := ParseDataDumpParams(s).value;
    TransportSpecFromBytes(s, t);
    ControlsLookup(p, 0, Slider, t);
  }

  /** The spec of a transport control, read from the bytes of the scene */
  lemma TransportSpecFromBytes(s: seq<Byte>, t: nat)
    requires |s| == ParamsSize && t < TransportButtonCount
    ensures ParseDataDumpParams(s).Some?
    ensures var spec := TransportSpec(ParseDataDumpParams(s).value, t);
      && spec.channel == (if s[251] == 0x10 then s[0] else s[251])
      && spec.control == s[251 + 3 + 6 * t]
      && spec.controlType == Button
      && !spec.led
  {
    GroupFieldOffsets(s, 0, Slider);
    TransportFieldOffsets(s, t);
  }
}
