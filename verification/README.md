# nanokontrol in Dafny

A model of the pure core of nanokontrol, a small Python controller for the
Korg nanoKONTROL2 MIDI surface. The model covers:

- the 7-bit/8-bit packing codec of the device's sysex data
  (`EncodedBytesAdapter`);
- the fixed-layout parsers for the Korg message envelope, the data dump
  response and the 343-byte scene parameters;
- the constant "current scene data dump request";
- the control map that `watchpulse.py` builds from a scene dump, the
  discovery of that dump on the event queue, the MIDI-to-control rule and
  its FIFO drain, and the LED test sequence;
- the older `nanokontrol.py` loop that classifies each control change
  into a mute toggle, a volume change or a key press.

Files and modules:

| file | module | what it holds |
|---|---|---|
| wrappers.dfy | Wrappers | `Option`, the result of every parse |
| bits.dfy | Bits | bytes, and the bitwise or, shifts and masks of the codec, written over integers |
| codec.dfy | Codec | `_decode` and `_encode`, their layouts and round trips |
| layout.dfy | Layout | `KorgMessage`, `DataDumpResponse`, `DataDumpParams` and their records |
| sysex.dfy | Sysex | `CurrentSceneRequest` |
| ordereddict.dfy | OrderedDict | Python's insertion-ordered dict |
| controlmap.dfy | ControlMap | `build_control_map`: the `controls` and `messages` dicts |
| coordinator.dfy | Coordinator | `discover`, `handle_midi_event`, `process_q`, `set_led`, `led_test` |
| legacy.dfy | Legacy | `KEY_MAPPING`, the body of `main`'s loop, `key`, the mute toggles |

Bytes are `int`s in `[0, 256)`. A parse that `construct` would reject
returns `None`. The queue is a sequence. The two dicts of the control map
are an ordered list of pairs (`controls`) and a Dafny `map` (`messages`).

Where the code and a plain reading of it differ, the model follows the
code:

- `_decode` always produces seven bytes per group of eight, so a short
  last group is padded with zeros. That is why the 388 packed bytes of a
  dump response decode to exactly the 343 bytes the parameter layout
  needs, and why `decode(encode(x))` is `x` followed by zeros.
- The `KorgMessage` header is 8 bytes, not 7: marker, channel, four tag
  bytes, format and function id. The message data starts at offset 8.
- `build_control_map` reads fields that the structs do not define:
  `group_midi_channel`, `'<c>_control_number'`, `transport_midi_channel`
  and `'<t>_params'`. The model reads the fields these evidently mean:
  `midi_channel`, `controls.<c>.control_number` and `controls.<t>`.
- The transport block of `build_control_map` sits inside the group loop,
  so the eleven transport specs are stored again after every group. The
  `controls` order is therefore group 0, transport, groups 1 to 7. In
  `messages`, a key shared with a transport control ends with a transport
  spec.
- `discover` waits for a reply forever, with no retry budget. The model
  searches a finite queue; `None` means no reply is among the items yet.
- `set_led` builds a `mido.Message`, whose constructor raises
  `ValueError` for a channel above 15 or a control number above 127. The
  parsers accept any byte there, so the model checks both fields and
  treats an out-of-range address as a raise, like the `KeyError` of a
  missing name.

## Model

| member | source | states |
|---|---|---|
| Codec.DecodeLength | nanokontrol/datatypes.py:46-59 | decoding n bytes gives 7 bytes per started group of 8, i.e. 7·⌈n/8⌉ |
| Codec.EncodeLength | nanokontrol/datatypes.py:61-75 | encoding n bytes gives 8 bytes per started group of 7, i.e. 8·⌈n/7⌉ |
| Codec.EncodeClean | nanokontrol/datatypes.py:61-75 | every encoded byte is below 0x80, valid as MIDI data |
| Codec.WithHighBit | nanokontrol/datatypes.py:55 | or-ing a flag shifted to bit 7 into a 7-bit payload keeps the low bits and sets the high bit to the flag |
| Codec.DecodeLayout | nanokontrol/datatypes.py:46-57 | decoded byte 7g+k is payload byte 8g+k+1 with bit k of carrier byte 8g as its high bit, and 0 where the payload byte is missing |
| Codec.EncodeLayout | nanokontrol/datatypes.py:61-73 | encoded byte 8g+k+1 is the low 7 bits of input byte 7g+k, bit k of byte 8g is its high bit, and both are 0 past the end of the input |
| Codec.DecodeEncode | nanokontrol/datatypes.py:46-75 | decoding an encoding gives the input followed by zeros up to the next multiple of 7 |
| Codec.DecodeEncodeExact | nanokontrol/datatypes.py:46-75 | decoding an encoding gives back exactly the input if and only if its length is a multiple of 7 |
| Codec.EncodeDecode | nanokontrol/datatypes.py:46-75 | encoding a decoding gives back any 7-bit-clean input whose length is a multiple of 8 |
| Codec.DecodeAppend | nanokontrol/datatypes.py:46-59 | decoding works group by group: after a whole number of groups, the decoding of a concatenation is the concatenation of the decodings |
| Codec.DecodeWireForm | nanokontrol/datatypes.py:46-59 | a packed form with only the bytes actually carried (n + ⌈n/7⌉) still decodes to the data followed by zero padding |
| Layout.ParseKorgMessage | nanokontrol/datatypes.py:78-85 | the envelope parses if and only if there are at least 8 bytes, byte 0 is 0x42 and bytes 2 to 5 are 00 01 13 00 |
| Layout.ParseKorgMessageBytes | nanokontrol/datatypes.py:78-85 | building a message's bytes and parsing them gives back the message |
| Layout.KorgMessageBytesParse | nanokontrol/datatypes.py:78-85 | the bytes of a parsed message are the input: the data is everything after the header |
| Layout.ParseDataDumpParams | nanokontrol/datatypes.py:154-161 | the scene parameters parse if and only if the input is exactly 343 bytes, and the result has 8 groups, 11 transport buttons and all fields in range |
| Layout.ParseParamsBytes | nanokontrol/datatypes.py:87-161 | the bytes of well-formed scene parameters parse back to the same parameters |
| Layout.ParamsBytesParse | nanokontrol/datatypes.py:87-161 | every 343-byte input parses, and the parsed parameters lay out to the input again |
| Layout.GroupFieldOffsets | nanokontrol/datatypes.py:107-118 | group i's channel is byte 3+31i, and control k's control number is at offset 2 of its 6-byte record inside the group |
| Layout.TransportFieldOffsets | nanokontrol/datatypes.py:126-152 | the transport channel is byte 251, and button t's control number is at offset 2 of its 6-byte record after it |
| Layout.ParseDataDumpResponse | nanokontrol/datatypes.py:163-169 | the response parses if and only if it has at least 4 + 388 bytes, and its decoded data is always 343 bytes |
| Layout.ResponseIgnoresTrailing | nanokontrol/datatypes.py:163-169 | bytes after the 392 the response uses do not change the parse |
| Layout.ResponseLengthUnchecked | nanokontrol/datatypes.py:163-169 | the two length bytes are never checked: replacing them changes only those two fields |
| Layout.ResponseDataTail | nanokontrol/datatypes.py:168 | the last 4 of the 343 decoded bytes are always zero, because the last packed group carries only 3 bytes |
| Layout.ResponseOfWireForm | nanokontrol/datatypes.py:163-168 | a response header followed by the packed form of 339 bytes parses to those bytes followed by four zeros |
| Sysex.RequestBytes | nanokontrol/sysex.py:14-19 | the request is 9 bytes long |
| Sysex.RequestIgnoresChannel | nanokontrol/sysex.py:10-19 | whatever channel the constructor is given, the request is 42 40 00 01 13 00 1F 10 00 |
| Sysex.RequestClean | nanokontrol/sysex.py:16-19 | every request byte is below 0x80, valid as sysex data |
| Sysex.RequestParses | nanokontrol/sysex.py:16-19 | the request itself parses as a Korg message with format 0x1F, function id 0x10 and data [0] |
| Sysex.RequestIsNotADump | nanokontrol/sysex.py:16-19 | the request is too short to be taken for a dump response |
| OrderedDict.GetPut | watchpulse.py:112 | after `d[k] = v`, k maps to v and every other key to its old value |
| OrderedDict.PutKeys | watchpulse.py:112 | a store keeps the key order and appends a new key at the end |
| OrderedDict.PutAllSame | watchpulse.py:112 | storing values a dict already holds leaves it unchanged, order included |
| ControlMap.BuildControls | watchpulse.py:83-134 | `controls` holds the 51 specs, each once, in the order group 0, transport, groups 1 to 7 |
| ControlMap.ControlsLookup | watchpulse.py:78-137 | `controls` has 51 distinct names; `<c>-group-<g>` maps to the group spec and `transport-<t>` to the transport spec |
| ControlMap.GroupNameInjective | watchpulse.py:101 | different group controls get different names |
| ControlMap.GroupControlFromBytes | watchpulse.py:83-112 | from a 343-byte dump: the channel is the group channel byte, or the global channel when that byte is 0x10; the control is its control number byte; solo, mute and rec, and only they, are buttons with an LED |
| ControlMap.TransportControlFromBytes | watchpulse.py:114-134 | from a 343-byte dump: the transport channel resolves the same way; each transport control is a button without an LED |
| ControlMap.StoreAllLastWins | watchpulse.py:111 | after the stores, a key is present if and only if it was there or was stored, and maps to the last spec stored under it |
| ControlMap.MessagesLastWins | watchpulse.py:111-133 | `messages` maps each key to the last spec stored under it |
| ControlMap.MessagesKeys | watchpulse.py:111-133 | the keys of `messages` are exactly the (channel, control) keys of the 51 controls |
| ControlMap.TransportWins | watchpulse.py:114-134 | a key shared with a transport control always ends with a transport spec, never a group spec |
| ControlMap.MessagesWithoutCollisions | watchpulse.py:111-133 | when no two controls share a key, every key maps to its own control |
| Coordinator.ParseSceneDump | watchpulse.py:66-70 | a payload that passes all three parse layers gives well-formed scene parameters |
| Coordinator.ParseSceneDumpSucceeds | watchpulse.py:66-70 | the three layers pass if and only if the payload has at least 8 + 4 + 388 bytes, starts with 0x42 and carries the tag 00 01 13 00 in bytes 2 to 5 |
| Coordinator.DiscoverNone | watchpulse.py:59-76 | discovery finds nothing if and only if no queued item is a sysex message that passes all three layers |
| Coordinator.DiscoverFirstReply | watchpulse.py:59-76 | discovery builds the map from the first passing reply and leaves exactly the later items on the queue |
| Coordinator.SceneDumpRoundTrip | watchpulse.py:66-70 | a device reply carrying the packed bytes of well-formed parameters passes all three layers and yields those parameters |
| Coordinator.HandleMidiEvent | watchpulse.py:182-189 | exactly one control event is queued if and only if the message is a control change whose (channel, control) is in `messages`; otherwise nothing is |
| Coordinator.DrainStep | watchpulse.py:168-180 | taking one item off the queue and queueing what it produced keeps "handled + queued = initial queue + everything produced" |
| Coordinator.ProcessQueue | watchpulse.py:168-180 | the drain ends with an empty queue, having handled the initial items in FIFO order followed by the control events they produced |
| Coordinator.SetLed | watchpulse.py:139-147 | a command is built if and only if the name is in `controls` (else KeyError) and its spec has a channel of at most 15 and a control of at most 127 (else ValueError); it goes to that spec's channel and control, with value 127 for on and 0 for off |
| Coordinator.LedPassFound | watchpulse.py:150-157 | a pass over entries that look up to themselves sends one command per LED spec, in order, when every LED spec is sendable, and raises otherwise |
| Coordinator.LedTestSpec | watchpulse.py:149-157 | on any dict without repeated keys (every Python dict), `led_test` switches every LED on in dict order, then every LED off in the same order, and raises exactly when some LED's address is out of range |
| Coordinator.LedTestOfBuiltMap | watchpulse.py:149-157 | on the built map this is 48 commands: solo, mute, rec of groups 0 to 7 switched on, then the same 24 switched off; it raises instead when one of the 24 addresses is out of range |
| Coordinator.LedOrderSendable | watchpulse.py:139-147 | the 24 LED commands can all be built if and only if solo, mute and rec of every group resolve to a channel of at most 15 and a control of at most 127 |
| Coordinator.LedsOfGroupsIndex | watchpulse.py:149-157 | LED command i concerns control i mod 3 of solo, mute, rec in group ⌊i/3⌋ |
| Legacy.Dispatch | nanokontrol.py:122-147 | another channel does nothing; 48 or 49 with value 0 toggles output or input mute; 0 and 1 set a volume for any value; a mapped key is pressed if and only if the value is 127 |
| Legacy.DispatchNothing | nanokontrol.py:130-147 | 48 and 49 with a non-zero value, and unmapped controls, do nothing |
| Legacy.KeyMappingDisjoint | nanokontrol.py:16-24 | no key of `KEY_MAPPING` is 0, 1, 48 or 49, so the earlier tests never hide a mapped key |
| Legacy.Key | nanokontrol.py:87-95 | a single key is treated as a one-key tuple; every key is written in order with the same state, then exactly one sync |
| Legacy.ToggleMute | nanokontrol.py:45-69 | the new mute state is the negation of the old one, with the matching icon |
| Legacy.ToggleIconsDiffer | nanokontrol.py:45-69 | the icons shown after muting and after unmuting differ, on both streams |

## Left out

- `scaler.py` and `nanokontrol/scaler.py`: float interpolation. Volume
  actions carry the raw 0 to 127 value instead.
- `nanokontrol/device.py`: opening, searching and sending on mido ports.
- All PulseAudio, D-Bus, evdev and mido I/O. This includes
  `event_listen`, `ShowOSD`, `UInput.write` and `nk.send`. Where the model
  needs the effect of such a call, it returns it as data: the LED command
  list, the input events of `key`, the new mute state and its icon.
- `Legacy.Key`: key names stand for their evdev codes; the `ecodes` lookup
  is a table outside this model.
- The callbacks `midi_in_cb` and `pulse_ev_cb`, the thread that fills the
  queue, and `PulseLoopStop`. The queue is a plain sequence.
- The unimplemented `'pulse'` and `'control'` branches of `process_q`
  (they do nothing), and `handle_pulse_event`.
- `time.sleep`, logging, click option parsing, and the endless `start` and
  `main` loops.
- Messages other than control changes in `nanokontrol.py`'s loop.
  `Legacy.Dispatch` takes the channel, control and value of a control
  change.
- The build direction of `DataDumpResponse`. The source only parses a
  response. Its encoder would turn the 343 bytes into 392 bytes, not the
  388 that `Array(388)` accepts. `Coordinator.SceneDumpRoundTrip`
  therefore starts from the 388 bytes the device sends, which carry only
  339 of the 343 parameter bytes.
- The `mido.Message` wrapper of `Sysex.message`: the model stops at the
  byte list.
- `discover` catches `exc.InvalidMessage`, and `nanokontrol/exc.py` is not
  part of this model. The model assumes every parse failure raises that
  exception, so a message that fails a parse layer is skipped.
- `Coordinator.LedTest`: a raise in the middle of a pass is modelled as
  None for the whole test. The commands already sent before the raise are
  not part of the result.
- `Sysex.NewCurrentSceneRequest` has no contract of its own.
  `Sysex.RequestIgnoresChannel` states what it yields.
- `Coordinator.Discover`: the sending of the request and the wait for
  more items are not modelled.
