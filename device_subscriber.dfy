/** Subscribing to the input events of individual XInput devices: which event
    codes a device's input classes call for (`snoop_device`), and which of the
    server's devices are subscribed at startup (`snoop_xinput`). The server's
    replies are parameters; the requests sent to it are returned as values. */
module DeviceSubscriber {
  import opened EventCode

  /** The kinds of input class an XInput device reports. */
  datatype InputClass = Key | Button | Valuator | Feedback | Proximity | Focus | Other

  /** One entry of the `class_info` list of an OpenDevice reply. */
  datatype ClassInfo = ClassInfo(classId: InputClass, eventTypeBase: bv8)

  /** The roles ListInputDevices reports for a device. */
  datatype DeviceUse = IsXPointer | IsXKeyboard | IsXExtensionDevice | IsXExtensionKeyboard | IsXExtensionPointer

  /** One device of a ListInputDevices reply. */
  datatype DeviceInfo = DeviceInfo(deviceId: bv8, deviceUse: DeviceUse)

  /** The requests the subscriber sends to the server. OpenDevice and
      CloseDevice name only the device; SelectExtensionEvent is scoped to the
      root window, which is left implicit. */
  datatype Request =
    | OpenDevice(deviceId: bv8)
    | CloseDevice(deviceId: bv8)
    | SelectExtensionEvent(codes: seq<bv32>)

  /** The codes one input class contributes: a Key class its release event, a
      Valuator class its motion event unless raw motion events replace it, and
      any other class nothing. `base + 1` is u8 arithmetic and wraps, as in a
      release build. */
  function ClassCodes(rawmotion: bool, deviceId: bv8, c: ClassInfo): seq<bv32> {
    match c.classId
    case Key => [MakeEventCode(deviceId, c.eventTypeBase + 1)]
    case Valuator => if rawmotion then [] else [MakeEventCode(deviceId, c.eventTypeBase)]
    case _ => []
  }

  /** What one class contributes, read back through the code's fields: at most
      one code, naming the device; a Key class's release event; a Valuator
      class's motion event exactly in legacy mode; nothing for other classes. */
  lemma ClassCodesSpec(rawmotion: bool, deviceId: bv8, c: ClassInfo)
    ensures var codes := ClassCodes(rawmotion, deviceId, c);
      && |codes| <= 1
      && (forall code :: code in codes ==> code < 0x1_0000 && DeviceOf(code) == deviceId)
      && (c.classId == Key ==> |codes| == 1 && EventTypeOf(codes[0]) == c.eventTypeBase + 1)
      && (c.classId == Valuator ==>
            |codes| == (if rawmotion then 0 else 1)
            && (!rawmotion ==> EventTypeOf(codes[0]) == c.eventTypeBase))
      && (c.classId != Key && c.classId != Valuator ==> codes == [])
  {
    match c.classId
    case Key => DecodeMake(deviceId, c.eventTypeBase + 1);
    case Valuator => DecodeMake(deviceId, c.eventTypeBase);
    case _ =>
  }

  /** Whether a class contributes a code at all. */
  predicate Contributes(rawmotion: bool, c: ClassInfo) {
    c.classId == Key || (c.classId == Valuator && !rawmotion)
  }

  /** The event list `snoop_device` builds: the classes' codes in class order. */
  function EventCodes(rawmotion: bool, deviceId: bv8, classes: seq<ClassInfo>): (codes: seq<bv32>)
  {
    if classes == [] then []
    else EventCodes(rawmotion, deviceId, classes[..|classes| - 1])
         + ClassCodes(rawmotion, deviceId, classes[|classes| - 1])
  }

  /** The codes of a concatenation of class lists are the concatenation of
      their codes, so codes appear in class order. */
  lemma {:induction false} EventCodesAppend(rawmotion: bool, deviceId: bv8, xs: seq<ClassInfo>, ys: seq<ClassInfo>)
    ensures EventCodes(rawmotion, deviceId, xs + ys)
            == EventCodes(rawmotion, deviceId, xs) + EventCodes(rawmotion, deviceId, ys)
  {
    assert forall i :: 0 <= i < |xs + ys| ==> (xs + ys)[i] == if i < |xs| then xs[i] else ys[i - |xs|];
    if ys != [] {
      var init, last := ys[..|ys| - 1], ys[|ys| - 1];
      assert (xs + ys)[..|xs + ys| - 1] == xs + init;
      EventCodesAppend(rawmotion, deviceId, xs, init);
    } else {
      assert xs + ys == xs;
    }
  }

  /** A single class's codes are exactly what that class contributes. */
  lemma EventCodesSingle(rawmotion: bool, deviceId: bv8, c: ClassInfo)
    ensures EventCodes(rawmotion, deviceId, [c]) == ClassCodes(rawmotion, deviceId, c)
  {
    assert [c][..0] == [];
  }

  /** The number of classes of one kind. */
  function CountClass(classes: seq<ClassInfo>, kind: InputClass): nat {
    if classes == [] then 0
    else CountClass(classes[..|classes| - 1], kind) + (if classes[|classes| - 1].classId == kind then 1 else 0)
  }

  /** One code per Key class, plus one per Valuator class in legacy mode. */
  lemma {:induction false} EventCodesLength(rawmotion: bool, deviceId: bv8, classes: seq<ClassInfo>)
    ensures |EventCodes(rawmotion, deviceId, classes)|
            == CountClass(classes, Key) + (if rawmotion then 0 else CountClass(classes, Valuator))
  {
    if classes != [] {
      EventCodesLength(rawmotion, deviceId, classes[..|classes| - 1]);
    }
  }

  /** `code` is the event a class calls for: a Key class's release event or,
      in legacy mode, a Valuator class's motion event. */
  predicate CodeOfClass(rawmotion: bool, code: bv32, c: ClassInfo) {
    (c.classId == Key && EventTypeOf(code) == c.eventTypeBase + 1)
    || (c.classId == Valuator && !rawmotion && EventTypeOf(code) == c.eventTypeBase)
  }

  /** Every code names the device and is the event some class calls for. */
  lemma {:induction false} EventCodesSound(rawmotion: bool, deviceId: bv8, classes: seq<ClassInfo>)
    ensures forall code :: code in EventCodes(rawmotion, deviceId, classes) ==>
              code < 0x1_0000 && DeviceOf(code) == deviceId
              && exists c :: c in classes && CodeOfClass(rawmotion, code, c)
  {
    if classes != [] {
      var init, last := classes[..|classes| - 1], classes[|classes| - 1];
      EventCodesSound(rawmotion, deviceId, init);
      ClassCodesSpec(rawmotion, deviceId, last);
      var codes := ClassCodes(rawmotion, deviceId, last);
      assert EventCodes(rawmotion, deviceId, classes) == EventCodes(rawmotion, deviceId, init) + codes;
      forall code | code in EventCodes(rawmotion, deviceId, classes)
        ensures code < 0x1_0000 && DeviceOf(code) == deviceId
        ensures exists c :: c in classes && CodeOfClass(rawmotion, code, c)
      {
        if code in EventCodes(rawmotion, deviceId, init) {
          var c :| c in init && CodeOfClass(rawmotion, code, c);
          assert c in classes;
        } else {
          assert code == codes[0];
          assert CodeOfClass(rawmotion, code, last);
          assert last in classes;
        }
      }
    }
  }

  /** Every class's own codes occur in the device's list. */
  lemma {:induction false} ClassCodesIncluded(rawmotion: bool, deviceId: bv8, classes: seq<ClassInfo>, i: nat)
    requires i < |classes|
    ensures forall code :: code in ClassCodes(rawmotion, deviceId, classes[i]) ==>
              code in EventCodes(rawmotion, deviceId, classes)
  {
    var init := classes[..|classes| - 1];
    if i < |classes| - 1 {
      assert classes[i] == init[i];
      ClassCodesIncluded(rawmotion, deviceId, init, i);
    }
  }

  /** Every Key class's release code is subscribed, and every Valuator class's
      motion code is subscribed in legacy mode. */
  lemma EventCodesComplete(rawmotion: bool, deviceId: bv8, classes: seq<ClassInfo>, i: nat)
    requires i < |classes| && Contributes(rawmotion, classes[i])
    ensures MakeEventCode(deviceId, if classes[i].classId == Key then classes[i].eventTypeBase + 1
                                    else classes[i].eventTypeBase)
            in EventCodes(rawmotion, deviceId, classes)
  {
    ClassCodesIncluded(rawmotion, deviceId, classes, i);
    var c := classes[i];
    var code := ClassCodes(rawmotion, deviceId, c)[0];
    assert code in ClassCodes(rawmotion, deviceId, c);
  }

  /** A class's own codes are non-empty exactly when it contributes. */
  lemma ClassCodesNonEmpty(rawmotion: bool, deviceId: bv8, c: ClassInfo)
    ensures ClassCodes(rawmotion, deviceId, c) != [] <==> Contributes(rawmotion, c)
  {
  }

  /** The list is non-empty exactly when some class contributes a code. */
  lemma {:induction false} EventCodesNonEmpty(rawmotion: bool, deviceId: bv8, classes: seq<ClassInfo>)
    ensures EventCodes(rawmotion, deviceId, classes) != []
            <==> exists i :: 0 <= i < |classes| && Contributes(rawmotion, classes[i])
  {
    if classes != [] {
      var init, last := classes[..|classes| - 1], classes[|classes| - 1];
      EventCodesNonEmpty(rawmotion, deviceId, init);
      ClassCodesNonEmpty(rawmotion, deviceId, last);
      assert EventCodes(rawmotion, deviceId, classes)
             == EventCodes(rawmotion, deviceId, init) + ClassCodes(rawmotion, deviceId, last);
      if exists i :: 0 <= i < |classes| && Contributes(rawmotion, classes[i]) {
        var i :| 0 <= i < |classes| && Contributes(rawmotion, classes[i]);
        if i < |init| {
          assert init[i] == classes[i];
        }
      }
      if exists i :: 0 <= i < |init| && Contributes(rawmotion, init[i]) {
        var i :| 0 <= i < |init| && Contributes(rawmotion, init[i]);
        assert classes[i] == init[i];
      }
    }
  }

  /** The three requests `snoop_device` sends for one device. */
  function SnoopRequests(rawmotion: bool, deviceId: bv8, classes: seq<ClassInfo>): seq<Request>
  {
    [OpenDevice(deviceId), CloseDevice(deviceId), SelectExtensionEvent(EventCodes(rawmotion, deviceId, classes))]
  }

  /** `snoop_device`: open the device, collect the event codes its classes
      (`classes`, the server's OpenDevice reply) call for, close it, subscribe
      to the codes — even when there are none — and report whether there were any. */
  method SnoopDevice(rawmotion: bool, deviceId: bv8, classes: seq<ClassInfo>)
    returns (requests: seq<Request>, found: bool)
    ensures requests == SnoopRequests(rawmotion, deviceId, classes)
    ensures found <==> exists i :: 0 <= i < |classes| && Contributes(rawmotion, classes[i])
  {
    requests := [OpenDevice(deviceId)];
    var eventList: seq<bv32> := [];
    for i := 0 to |classes|
      invariant eventList == EventCodes(rawmotion, deviceId, classes[..i])
    {
      assert classes[..i + 1][..i] == classes[..i];
      var c := classes[i];
      assert EventCodes(rawmotion, deviceId, classes[..i + 1])
             == eventList + ClassCodes(rawmotion, deviceId, c);
      match c.classId {
        case Key =>
          eventList := eventList + [MakeEventCode(deviceId, c.eventTypeBase + 1)];
        case Valuator =>
          if rawmotion {
            continue;
          }
          eventList := eventList + [MakeEventCode(deviceId, c.eventTypeBase)];
        case _ =>
      }
    }
    assert classes[..|classes|] == classes;
    requests := requests + [CloseDevice(deviceId), SelectExtensionEvent(eventList)];
    EventCodesNonEmpty(rawmotion, deviceId, classes);
    found := eventList != [];
  }

  /** A Key class whose event-type base is 255 subscribes to event type 0 of
      the device: the u8 addition wraps. */
  lemma KeyBaseWraps(rawmotion: bool, deviceId: bv8)
    ensures ClassCodes(rawmotion, deviceId, ClassInfo(Key, 0xFF)) == [MakeEventCode(deviceId, 0)]
  {
  }

  /** The device-use filter of `snoop_xinput`: only extension keyboards and
      extension pointers are subscribed. */
  predicate IsSnooped(use: DeviceUse) {
    use == IsXExtensionKeyboard || use == IsXExtensionPointer
  }

  /** The identifiers of the devices that pass the filter, in list order. */
  function SnoopedIds(devices: seq<DeviceInfo>): seq<bv8> {
    if devices == [] then []
    else SnoopedIds(devices[..|devices| - 1])
         + (if IsSnooped(devices[|devices| - 1].deviceUse) then [devices[|devices| - 1].deviceId] else [])
  }

  /** The requests the device loop of `snoop_xinput` sends: `snoop_device`'s
      requests for each device that passes the filter, in list order.
      `replies[j]` is the server's OpenDevice reply for `devices[j]`. */
  function XInputRequests(rawmotion: bool, devices: seq<DeviceInfo>, replies: seq<seq<ClassInfo>>): seq<Request>
    requires |replies| == |devices|
  {
    if devices == [] then []
    else
      var d := devices[|devices| - 1];
      XInputRequests(rawmotion, devices[..|devices| - 1], replies[..|replies| - 1])
      + (if IsSnooped(d.deviceUse) then SnoopRequests(rawmotion, d.deviceId, replies[|replies| - 1]) else [])
  }

  /** The event class of device presence notifications. */
  const DEVICE_PRESENCE: bv32 := 0x1_0000

  /** Everything `snoop_xinput` sends after the XInput 2 negotiation: the device
      loop's requests, then the subscription to device presence notifications. */
  function StartupRequests(rawmotion: bool, devices: seq<DeviceInfo>, replies: seq<seq<ClassInfo>>): seq<Request>
    requires |replies| == |devices|
  {
    XInputRequests(rawmotion, devices, replies) + [SelectExtensionEvent([DEVICE_PRESENCE])]
  }

  /** The device presence class is no device's event code. */
  lemma DevicePresenceIsNoEventCode(rawmotion: bool, deviceId: bv8, classes: seq<ClassInfo>)
    ensures DEVICE_PRESENCE !in EventCodes(rawmotion, deviceId, classes)
  {
    EventCodesSound(rawmotion, deviceId, classes);
  }

  /** The devices the OpenDevice requests among `requests` name, in order. */
  function OpenedIds(requests: seq<Request>): seq<bv8> {
    if requests == [] then []
    else OpenedIds(requests[..|requests| - 1])
         + (if requests[|requests| - 1].OpenDevice? then [requests[|requests| - 1].deviceId] else [])
  }

  lemma {:induction false} OpenedIdsAppend(xs: seq<Request>, ys: seq<Request>)
    ensures OpenedIds(xs + ys) == OpenedIds(xs) + OpenedIds(ys)
  {
    if ys == [] {
      assert xs + ys == xs;
    } else {
      assert (xs + ys)[..|xs + ys| - 1] == xs + ys[..|ys| - 1];
      OpenedIdsAppend(xs, ys[..|ys| - 1]);
    }
  }

  /** `snoop_device` opens exactly the device it is given. */
  lemma OpenedIdsSnoop(rawmotion: bool, deviceId: bv8, classes: seq<ClassInfo>)
    ensures OpenedIds(SnoopRequests(rawmotion, deviceId, classes)) == [deviceId]
  {
    var r := SnoopRequests(rawmotion, deviceId, classes);
    assert r[..|r| - 1] == r[..2] && r[..2][..1] == r[..1] && r[..1][..0] == [];
    assert OpenedIds(r[..1]) == [deviceId];
    assert OpenedIds(r[..2]) == [deviceId];
  }

  /** The device loop opens exactly the devices that pass the filter, once
      each, in list order. */
  lemma {:induction false} XInputOpensSnoopedDevices(rawmotion: bool, devices: seq<DeviceInfo>, replies: seq<seq<ClassInfo>>)
    requires |replies| == |devices|
    ensures OpenedIds(XInputRequests(rawmotion, devices, replies)) == SnoopedIds(devices)
  {
    if devices != [] {
      var init, d := devices[..|devices| - 1], devices[|devices| - 1];
      var initReplies, reply := replies[..|replies| - 1], replies[|replies| - 1];
      XInputOpensSnoopedDevices(rawmotion, init, initReplies);
      var tail := if IsSnooped(d.deviceUse) then SnoopRequests(rawmotion, d.deviceId, reply) else [];
      OpenedIdsAppend(XInputRequests(rawmotion, init, initReplies), tail);
      if IsSnooped(d.deviceUse) {
        OpenedIdsSnoop(rawmotion, d.deviceId, reply);
      }
    }
  }

  /** All of startup opens exactly the devices that pass the filter. */
  lemma StartupOpensSnoopedDevices(rawmotion: bool, devices: seq<DeviceInfo>, replies: seq<seq<ClassInfo>>)
    requires |replies| == |devices|
    ensures OpenedIds(StartupRequests(rawmotion, devices, replies)) == SnoopedIds(devices)
  {
    XInputOpensSnoopedDevices(rawmotion, devices, replies);
    OpenedIdsAppend(XInputRequests(rawmotion, devices, replies), [SelectExtensionEvent([DEVICE_PRESENCE])]);
    assert [SelectExtensionEvent([DEVICE_PRESENCE])][..0] == [];
  }

  /** Some device that passes the filter has a class that contributes a code. */
  predicate AnyFound(rawmotion: bool, devices: seq<DeviceInfo>, replies: seq<seq<ClassInfo>>)
    requires |replies| == |devices|
  {
    exists j :: 0 <= j < |devices| && IsSnooped(devices[j].deviceUse)
      && exists i :: 0 <= i < |replies[j]| && Contributes(rawmotion, replies[j][i])
  }

  /** `snoop_xinput` from the device list on: subscribe every device that
      passes the filter, `replies[j]` being the server's OpenDevice reply for
      `devices[j]`, then subscribe to device presence notifications. */
  method SnoopXInput(rawmotion: bool, devices: seq<DeviceInfo>, replies: seq<seq<ClassInfo>>)
    returns (requests: seq<Request>, anyFound: bool)
    requires |replies| == |devices|
    ensures requests == StartupRequests(rawmotion, devices, replies)
    ensures anyFound <==> AnyFound(rawmotion, devices, replies)
  {
    requests := [];
    anyFound := false;
    for j := 0 to |devices|
      invariant requests == XInputRequests(rawmotion, devices[..j], replies[..j])
      invariant anyFound <==> AnyFound(rawmotion, devices[..j], replies[..j])
    {
      assert devices[..j + 1][..j] == devices[..j];
      assert replies[..j + 1][..j] == replies[..j];
      var devinfo := devices[j];
      if !IsSnooped(devinfo.deviceUse) {
        continue;
      }
      var sent, found := SnoopDevice(rawmotion, devinfo.deviceId, replies[j]);
      requests := requests + sent;
      anyFound := anyFound || found;
    }
    assert devices[..|devices|] == devices;
    assert replies[..|replies|] == replies;
    requests := requests + [SelectExtensionEvent([DEVICE_PRESENCE])];
  }
}
