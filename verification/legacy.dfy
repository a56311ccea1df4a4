/** The older stand-alone controller of nanokontrol.py: each control change
    on the configured channel is classified into one action (mute toggle,
    volume, key press) by the body of `main`'s loop. The actions are kept
    abstract: PulseAudio, the GNOME Shell on-screen display and the evdev
    uinput device are not part of this model. */
module Legacy {

  /** A value of `KEY_MAPPING`: one key name, or a tuple of key names
      pressed together */
  datatype KeyBinding = Single(key: string) | Chord(keys: seq<string>)

  /** `KEY_MAPPING`: control numbers of the transport buttons and the keys
      they stand for */
  const KeyMapping: map<int, KeyBinding> := map[
    42 := Single("KEY_STOP"),
    41 := Single("KEY_PLAY"),
    58 := Single("KEY_PREVIOUSSONG"),
    59 := Single("KEY_NEXTSONG"),
    60 := Chord(["KEY_LEFTMETA", "KEY_HOME"]),
    61 := Chord(["KEY_LEFTMETA", "KEY_PAGEUP"]),
    62 := Chord(["KEY_LEFTMETA", "KEY_PAGEDOWN"])]

  /** The control numbers `main` handles before it looks in `KEY_MAPPING` */
  const OutputVolumeControl := 0
  const InputVolumeControl := 1
  const OutputMuteControl := 48
  const InputMuteControl := 49

  /** What one message makes the controller do. The volumes carry the raw
      0 to 127 value; the source scales it to a float first. */
  datatype Action =
    | NoAction
    | ToggleOutputMute
    | ToggleInputMute
    | SetOutputVolume(level: int)
    | SetInputVolume(level: int)
    | SendKeys(binding: KeyBinding, pressed: bool)

  /** The body of `main`'s loop for a control change (channel, control,
      value) when the configured channel is `configured` */
  function Dispatch(configured: int, channel: int, control: int, value: int): (r: Action)
    ensures channel != configured ==> r == NoAction
    ensures r == ToggleOutputMute <==> channel == configured && control == 48 && value == 0
    ensures r == ToggleInputMute <==> channel == configured && control == 49 && value == 0
    ensures r.SetOutputVolume? <==> channel == configured && control == 0
    ensures r.SetInputVolume? <==> channel == configured && control == 1
    ensures (r.SetOutputVolume? || r.SetInputVolume?) ==> r.level == value
    ensures r.SendKeys? <==> channel == configured && control in KeyMapping
    ensures r.SendKeys? ==> r.binding == KeyMapping[control] && (r.pressed <==> value == 127)
  {
    if channel != configured then NoAction
    else if control == OutputMuteControl && value == 0 then ToggleOutputMute
    else if control == InputMuteControl && value == 0 then ToggleInputMute
    else if control == OutputVolumeControl then SetOutputVolume(value)
    else if control == InputVolumeControl then SetInputVolume(value)
    else if control in KeyMapping then SendKeys(KeyMapping[control], value == 127)
    else NoAction
  }

  /** The mute buttons act only when released (value 0); a press, or any
      control that is neither a volume knob, a mute button nor a mapped
      key, does nothing. */
  lemma DispatchNothing(configured: int, control: int, value: int)
    requires control !in KeyMapping && control != 0 && control != 1
    requires (control == 48 || control == 49) ==> value != 0
    ensures Dispatch(configured, configured, control, value) == NoAction
  {
  }

  /** The keys of `KEY_MAPPING` are none of the controls handled before
      it, so the order of the tests in `main` never hides a mapped key */
  lemma KeyMappingDisjoint(control: int)
    requires control in KeyMapping
    ensures control != OutputVolumeControl && control != InputVolumeControl
    ensures control != OutputMuteControl && control != InputMuteControl
  {
  }

  /** `if not isinstance(keys, tuple): keys = (keys,)` */
  function KeyNames(b: KeyBinding): (r: seq<string>)
    ensures b.Single? ==> r == [b.key]
    ensures b.Chord? ==> r == b.keys
  {
    match b
    case Single(k) => [k]
    case Chord(ks) => ks
  }

  /** What `key` writes to the uinput device: a key event with the given
      state, named by its `ecodes` key name, or the final sync */
  datatype InputEvent = KeyEvent(name: string, pressed: bool) | Sync

  /** `key(keys, keystate)`: one key event per key, in order and all with
      the same state, then one sync */
  method Key(b: KeyBinding, pressed: bool) returns (events: seq<InputEvent>)
    ensures |events| == |KeyNames(b)| + 1
    ensures forall i :: 0 <= i < |KeyNames(b)| ==> events[i] == KeyEvent(KeyNames(b)[i], pressed)
    ensures events[|events| - 1] == Sync
  {
    var keys := KeyNames(b);
    events := [];
    var i := 0;
    while i < |keys|
      invariant 0 <= i <= |keys|
      invariant |events| == i
      invariant forall j :: 0 <= j < i ==> events[j] == KeyEvent(keys[j], pressed)
    {
      events := events + [KeyEvent(keys[i], pressed)];
      i := i + 1;
    }
    events := events + [Sync];
  }

  /** The source (microphone) or the sink (speakers) */
  datatype Stream = Input | Output

  /** The new mute state of a toggle and the icon the on-screen display
      shows */
  datatype MuteChange = MuteChange(muted: bool, icon: string)

  /** The icon shown after a toggle */
  function MuteIcon(s: Stream, muted: bool): string {
    match s
    case Input => if muted then "microphone-sensitivity-muted" else "microphone-sensitivity-medium"
    case Output => if muted then "audio-volume-muted" else "audio-volume-medium"
  }

  /** `toggle_input_mute` / `toggle_output_mute` given the stream's current
      mute flag */
  function ToggleMute(s: Stream, muted: bool): (r: MuteChange)
    ensures r.muted == !muted
    ensures r.icon == MuteIcon(s, !muted)
  {
    if muted then MuteChange(false, MuteIcon(s, false))
    else MuteChange(true, MuteIcon(s, true))
  }

  /** The icon shown after a toggle tells the muted and unmuted states
      apart, on both streams */
  lemma ToggleIconsDiffer(s: Stream, muted: bool)
    ensures ToggleMute(s, muted).icon != ToggleMute(s, !muted).icon
  {
  }
}
