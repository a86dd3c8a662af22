# rxbanish, modelled in Dafny

rxbanish hides the X11 mouse pointer while the user types and shows it again
on pointer activity. This project models the decision logic of
`src/main.rs`, separated from the X connection it drives:

- `modifiers.dfy` (module `Modifiers`): the `--ignore-mod` values, their
  translation to a KEYBUTMASK (`From<Mod> for KeyButMask`), and the fold in
  `main` that combines them into one ignored-modifier mask. A KEYBUTMASK is
  modelled as the set of its bits (`KeyButBit`, Shift = 0x0001 up to
  Button5 = 0x1000), and `intersects` as a non-empty intersection.
- `event_code.dfy` (module `EventCode`): `make_event_code`, which packs a
  u8 device identifier and a u8 event type into a u32 (`bv8`, `bv32`), and
  its decoding.
- `device_subscriber.dfy` (module `DeviceSubscriber`): the class loop of
  `snoop_device`, as a method with a loop proved against the function
  `EventCodes`, and `snoop_xinput` from the device list on: the device-use
  filter loop, then the device presence subscription. The server's replies
  are parameters: the ListInputDevices device list, and one OpenDevice class
  list per `snoop_device` run. The OpenDevice, CloseDevice and
  SelectExtensionEvent requests are returned as `Request` values.
  SelectExtensionEvent, ShowCursor and HideCursor are scoped to the root
  window, which is left implicit; OpenDevice and CloseDevice name only the
  device.
- `visibility.dfy` (module `Visibility`): the main loop. `Step` is one
  iteration of its `match` on the `hidden` flag. `Run` folds `Step` over a
  finite event sequence. `HandleEvent` and `MainLoop` are the loop body and
  the loop as methods, with `hidden` a local variable as in `main`, and
  `Banish` is `main` from the parsed options on. An Enabled presence
  notification yields the effect `SubscribeDevice(id)`; the requests of the
  `snoop_device` run it triggers are returned too, built from the OpenDevice
  reply to that very run, so a device enabled twice may report different
  classes each time.

Three behaviours of `src/main.rs` worth noting:

- There is no Button-class arm in `snoop_device`. Button classes, like every
  class other than Key and Valuator, contribute no event code.
- `All` covers seven modifier bits: Shift, Lock, Control and Mod1 to Mod4.
  Mod5 is in no `--ignore-mod` value.
- The main loop has no arm for legacy device motion or button events. Even
  in legacy mode, where `snoop_device` subscribes to Valuator motion events,
  those events reach the catch-all arm and change nothing. Only raw motion
  and raw button presses show the pointer (`Visibility.OtherEventsKeepState`).

## Model

| member | source | states |
|---|---|---|
| `Modifiers.ToMask` | src/main.rs:44-68 | Every variant maps within Shift, Lock, Control and Mod1-Mod4, with no mouse-button bit and no Mod5. A variant maps to a single bit exactly when it is not `All`. |
| `Modifiers.AllIsUnionOfOthers` | src/main.rs:55-65 | `All` is exactly the union of the seven other variants' masks, and contains every variant's mask. |
| `Modifiers.NamedModifiersDisjoint` | src/main.rs:46-53 | Two distinct named modifiers map to disjoint bits. |
| `Modifiers.IgnoreMask` | src/main.rs:73-77 | The folded mask never holds a mouse-button bit and stays within the named modifier bits. |
| `Modifiers.IgnoreMaskBits` | src/main.rs:74-77 | The fold holds a bit exactly when some selected modifier's mask holds it, so an empty selection gives the empty mask. |
| `Modifiers.IgnoreMaskOrderIndependent` | src/main.rs:74-77 | Two selections with the same members, in any order and with any repetition, give the same mask. |
| `Modifiers.IgnoreMaskWithAll` | src/main.rs:57-77 | Any selection that includes `all` gives exactly the seven named modifier bits. |
| `Modifiers.IntersectsIgnoreMask` | src/main.rs:130-132 | A key state intersects the ignored mask exactly when it intersects the mask of some selected modifier. |
| `EventCode.MakeEventCode` | src/main.rs:267-269 | The code is `device_id * 256 + event_type` in u32 arithmetic, and is below 2^16. |
| `EventCode.DecodeMake` | src/main.rs:267-269 | `code >> 8` recovers the device identifier and `code & 0xFF` the event type. |
| `EventCode.MakeDecode` | src/main.rs:267-269 | Every value below 2^16 is the code of the pair it decodes to. |
| `EventCode.MakeEventCodeInjective` | src/main.rs:267-269 | Distinct (device, event type) pairs never share a code. |
| `DeviceSubscriber.ClassCodesSpec` | src/main.rs:227-250 | A Key class contributes exactly one code, for event type base + 1. A Valuator class contributes one code, for its base, exactly when raw motion is off. Any other class contributes nothing. Every code names the device. |
| `DeviceSubscriber.ClassCodesNonEmpty` | src/main.rs:227-250 | A class contributes a code exactly when it is a Key class, or a Valuator class with raw motion off. |
| `DeviceSubscriber.KeyBaseWraps` | src/main.rs:235-238 | A Key class with event-type base 255 subscribes to event type 0 of the device: the u8 `base + 1` wraps. |
| `DeviceSubscriber.EventCodesSingle` | src/main.rs:226-251 | The list for a single class is exactly that class's contribution. |
| `DeviceSubscriber.EventCodesAppend` | src/main.rs:224-251 | The codes of concatenated class lists are the concatenated codes, so codes appear in class order. |
| `DeviceSubscriber.EventCodesLength` | src/main.rs:224-251 | The list has one code per Key class, plus one per Valuator class when raw motion is off. |
| `DeviceSubscriber.EventCodesSound` | src/main.rs:224-251 | Every code names the device, and is either a Key class's base + 1 or, when raw motion is off, a Valuator class's base. |
| `DeviceSubscriber.EventCodesComplete` | src/main.rs:228-248 | Every Key class's release code is in the list, and so is every Valuator class's code when raw motion is off. |
| `DeviceSubscriber.EventCodesNonEmpty` | src/main.rs:262 | The list is non-empty exactly when some class is a Key class, or a Valuator class with raw motion off. |
| `DeviceSubscriber.SnoopDevice` | src/main.rs:213-263 | It sends OpenDevice, then CloseDevice, then SelectExtensionEvent with the classes' codes in order, even when there are none. It returns true exactly when some class contributes a code. |
| `DeviceSubscriber.OpenedIdsSnoop` | src/main.rs:219-222 | One `snoop_device` run opens exactly the device it was given. |
| `DeviceSubscriber.XInputOpensSnoopedDevices` | src/main.rs:189-197 | The startup loop opens exactly the extension keyboards and extension pointers, once each, in list order. |
| `DeviceSubscriber.DevicePresenceIsNoEventCode` | src/main.rs:199-206 | The device presence class 0x10000 is never one of a device's event codes, which all lie below 2^16. |
| `DeviceSubscriber.StartupOpensSnoopedDevices` | src/main.rs:185-206 | All of `snoop_xinput`'s requests, presence subscription included, open exactly the extension keyboards and extension pointers, in list order. |
| `DeviceSubscriber.SnoopXInput` | src/main.rs:185-206 | The loop sends one `snoop_device` run's requests per filtered device, in order, each with that device's own OpenDevice reply, and then subscribes to device presence (class 0x10000). Its accumulated flag is true exactly when some filtered device has a class that contributes a code. |
| `Visibility.StepSpec` | src/main.rs:115-153 | A ShowCursor or HideCursor is sent exactly when `hidden` changes, and it names the new state. Only a key release outside the ignored mask hides the pointer, and only raw motion or a raw button press shows it. A device is subscribed exactly when an Enabled presence notification names it. |
| `Visibility.IgnoredKeyRelease` | src/main.rs:126-132 | A key release whose state intersects the ignored mask sends nothing and leaves `hidden` as it was, hidden or not. |
| `Visibility.KeyReleaseHides` | src/main.rs:134-137 | Any other key release sets `hidden`, and sends exactly one HideCursor only when the pointer was shown. |
| `Visibility.PointerActivityShows` | src/main.rs:117-125 | Raw motion or a raw button press clears `hidden`, and sends exactly one ShowCursor only when the pointer was hidden. |
| `Visibility.OtherEventsKeepState` | src/main.rs:139-152 | Presence, mapping and unrecognised events leave `hidden` unchanged and send no show/hide request. An Enabled presence notification yields exactly one subscription, for its own device. |
| `Visibility.RunAlternates` | src/main.rs:113-138 | From any starting state, the show/hide requests of any event sequence strictly alternate, the first one leaving the starting state. The final state is the one the last request set. |
| `Visibility.FromStartAlternates` | src/main.rs:113-138 | Starting shown, the first request is HideCursor, and no two consecutive requests are the same. The pointer ends hidden exactly when the last request was HideCursor. |
| `Visibility.RunSubscribesEnabled` | src/main.rs:139-143 | Over any event sequence, `snoop_device` runs once per Enabled presence notification, in order, and for nothing else. |
| `Visibility.ResubscribeOpensEnabled` | src/main.rs:139-142 | The main loop opens exactly the devices Enabled presence notifications name, once per notification, in order. |
| `Visibility.SessionOpens` | src/main.rs:110-142 | Over a whole session the devices opened are the startup-filtered devices, then the devices presence notifications enable. |
| `Visibility.HandleEvent` | src/main.rs:116-153 | One loop iteration produces the state and effects of `Step`. An Enabled presence notification sends one `snoop_device` run's requests for its device, built from the OpenDevice reply to that run; every other event sends none. |
| `Visibility.MainLoop` | src/main.rs:113-154 | Starting shown, the loop ends in the state and with the effects of `Run`. It sends one `snoop_device` run's requests per Enabled presence notification, in order, each built from its own OpenDevice reply. |
| `Visibility.Banish` | src/main.rs:70-154 | With the folded ignore mask, `main` ends in the state and with the effects of `Run` from shown. The pointer is hidden exactly when the last request was HideCursor. The requests sent are `snoop_xinput`'s, then one `snoop_device` run per Enabled notification. |
| `Visibility.ScenarioNothingIgnored` | src/main.rs:115-138 | With nothing ignored, a key release, then raw motion, then a key release with Shift held send Hide, Show, Hide. |
| `Visibility.ScenarioShiftIgnored` | src/main.rs:126-137 | With Shift ignored, a release with Shift held sends nothing, and a plain release then sends Hide. |
| `Visibility.ScenarioDeviceEnabled` | src/main.rs:139-143 | Enabling device 7 subscribes it once and sends no show/hide request. |

## Left out

- Connecting to the display and finding the root window (src/main.rs:80-93) are calls into the xcb library. The root window is implicit in SelectExtensionEvent, ShowCursor and HideCursor, the requests that name it.
- The XFixes version query and its fatal error when the major version is below 4 (src/main.rs:95-106) are left out. The outcome is a server reply, and the model assumes it succeeded.
- The XInput 2 version probe and the raw-event registration (src/main.rs:162-183) are left out. Their only outcome, `rawmotion`, is a parameter.
- Argument parsing with clap (src/main.rs:20-27, 71) is a library call. The model starts from the parsed `seq<Mod>`.
- The `println!` diagnostics (src/main.rs:151, 180, 272, 279) only write to the console.
- Error propagation with `?` is left out. Every request and reply is assumed to succeed, while in the source any failure ends the process.
- `show_pointer` and `hide_pointer` (src/main.rs:271-283) are the effects `ShowCursor` and `HideCursor`.
- The unbounded `loop` is modelled over finite event sequences.
- DeviceSubscriber.ClassCodes: a Key class with event-type base 255 follows the release build, where the u8 `base + 1` wraps to 0 (`KeyBaseWraps`); a debug build panics there instead.
- EventCode.MakeEventCode: the value `device_id * 256 + event_type` is stated in u32 arithmetic, not as an unbounded integer.
