/** The pointer-visibility state machine of the main loop: a `hidden` flag,
    starting false, that each received event may flip, with a ShowCursor or
    HideCursor request sent exactly when it flips. */
module Visibility {
  import opened Modifiers
  import opened DeviceSubscriber

  /** The `devchange` field of a DevicePresenceNotify event. */
  datatype DeviceChange = Added | Removed | Enabled | Disabled | Unrecoverable | ControlChanged

  /** The events the main loop tells apart. `Other` stands for every event
      without an arm of its own, legacy device motion and button events included. */
  datatype Event =
    | RawMotion
    | RawButtonPress
    | DeviceKeyRelease(state: KeyButMask)
    | DevicePresenceNotify(devchange: DeviceChange, deviceId: bv8)
    | MappingNotify
    | Other

  /** What handling an event does besides updating `hidden`: the two XFixes
      requests, and one run of `snoop_device` for a newly enabled device. */
  datatype Effect = ShowCursor | HideCursor | SubscribeDevice(deviceId: bv8)

  datatype StepResult = StepResult(hidden: bool, effects: seq<Effect>)

  /** The show/hide requests among `effects`, in order. */
  function Commands(effects: seq<Effect>): seq<Effect> {
    if effects == [] then []
    else Commands(effects[..|effects| - 1])
         + (if effects[|effects| - 1].SubscribeDevice? then [] else [effects[|effects| - 1]])
  }

  /** The devices `snoop_device` is run for, in order. */
  function Subscriptions(effects: seq<Effect>): seq<bv8> {
    if effects == [] then []
    else Subscriptions(effects[..|effects| - 1])
         + (if effects[|effects| - 1].SubscribeDevice? then [effects[|effects| - 1].deviceId] else [])
  }

  /** One iteration of the main loop, given the current `hidden` flag and the
      ignored-modifier mask. */
  function Step(hidden: bool, ignoredMods: KeyButMask, e: Event): StepResult {
    match e
    case RawMotion | RawButtonPress =>
      if hidden then StepResult(false, [ShowCursor]) else StepResult(hidden, [])
    case DeviceKeyRelease(state) =>
      if Intersects(state, ignoredMods) then StepResult(hidden, [])
      else if !hidden then StepResult(true, [HideCursor])
      else StepResult(hidden, [])
    case DevicePresenceNotify(devchange, deviceId) =>
      if devchange == Enabled then StepResult(hidden, [SubscribeDevice(deviceId)])
      else StepResult(hidden, [])
    case MappingNotify => StepResult(hidden, [])
    case Other => StepResult(hidden, [])
  }

  /** What every step guarantees, whatever the event. */
  lemma StepSpec(hidden: bool, ignoredMods: KeyButMask, e: Event)
    ensures var r := Step(hidden, ignoredMods, e);
      // a request is sent exactly when the flag changes, and it names the new state
      && Commands(r.effects) == (if r.hidden == hidden then [] else [if r.hidden then HideCursor else ShowCursor])
      // only a key release outside the ignored modifiers hides the pointer
      && (r.hidden && !hidden ==> e.DeviceKeyRelease? && !Intersects(e.state, ignoredMods))
      // only raw pointer motion or a raw button press reveals it
      && (!r.hidden && hidden ==> e.RawMotion? || e.RawButtonPress?)
      // a device is subscribed exactly when a presence notification says it was enabled
      && Subscriptions(r.effects)
         == if e.DevicePresenceNotify? && e.devchange == Enabled then [e.deviceId] else []
  {
    var r := Step(hidden, ignoredMods, e);
    OneEffect(ShowCursor);
    OneEffect(HideCursor);
    if e.DevicePresenceNotify? {
      OneEffect(SubscribeDevice(e.deviceId));
    }
  }

  lemma OneEffect(f: Effect)
    ensures Commands([f]) == if f.SubscribeDevice? then [] else [f]
    ensures Subscriptions([f]) == if f.SubscribeDevice? then [f.deviceId] else []
  {
    assert [f][..0] == [];
  }

  /** A key release whose modifier state shares a bit with the ignored mask
      changes nothing, whatever the current state. */
  lemma IgnoredKeyRelease(hidden: bool, ignoredMods: KeyButMask, state: KeyButMask)
    requires Intersects(state, ignoredMods)
    ensures Step(hidden, ignoredMods, DeviceKeyRelease(state)) == StepResult(hidden, [])
  {
    var e := DeviceKeyRelease(state);
    assert e.state == state;
  }

  /** Any other key release hides the pointer, sending HideCursor only if it was shown. */
  lemma KeyReleaseHides(hidden: bool, ignoredMods: KeyButMask, state: KeyButMask)
    requires !Intersects(state, ignoredMods)
    ensures Step(hidden, ignoredMods, DeviceKeyRelease(state))
            == StepResult(true, if hidden then [] else [HideCursor])
  {
  }

  /** Raw motion and raw button presses show the pointer, sending ShowCursor
      only if it was hidden. */
  lemma PointerActivityShows(hidden: bool, ignoredMods: KeyButMask, e: Event)
    requires e.RawMotion? || e.RawButtonPress?
    ensures Step(hidden, ignoredMods, e) == StepResult(false, if hidden then [ShowCursor] else [])
  {
  }

  /** Presence, mapping and unrecognised events never touch the pointer; an
      Enabled presence notification subscribes exactly its device. */
  lemma OtherEventsKeepState(hidden: bool, ignoredMods: KeyButMask, e: Event)
    requires e.DevicePresenceNotify? || e.MappingNotify? || e.Other?
    ensures Step(hidden, ignoredMods, e).hidden == hidden
    ensures Step(hidden, ignoredMods, e).effects
            == if e.DevicePresenceNotify? && e.devchange == Enabled then [SubscribeDevice(e.deviceId)] else []
  {
  }

  /** The main loop over a finite stream of events. */
  function Run(hidden: bool, ignoredMods: KeyButMask, events: seq<Event>): StepResult {
    if events == [] then StepResult(hidden, [])
    else
      var before := Run(hidden, ignoredMods, events[..|events| - 1]);
      var last := Step(before.hidden, ignoredMods, events[|events| - 1]);
      StepResult(last.hidden, before.effects + last.effects)
  }

  lemma {:induction false} CommandsAppend(xs: seq<Effect>, ys: seq<Effect>)
    ensures Commands(xs + ys) == Commands(xs) + Commands(ys)
    ensures Subscriptions(xs + ys) == Subscriptions(xs) + Subscriptions(ys)
  {
    if ys == [] {
      assert xs + ys == xs;
    } else {
      assert (xs + ys)[..|xs + ys| - 1] == xs + ys[..|ys| - 1];
      CommandsAppend(xs, ys[..|ys| - 1]);
    }
  }

  /** Show/hide requests that strictly alternate, the first one leaving the
      state `hidden`. */
  predicate Alternating(hidden: bool, cmds: seq<Effect>) {
    (cmds != [] ==> cmds[0] == if hidden then ShowCursor else HideCursor)
    && forall i :: 0 <= i < |cmds| - 1 ==> cmds[i] != cmds[i + 1]
  }

  /** The state the pointer is left in by `cmds`, starting from `hidden`. */
  function StateAfter(hidden: bool, cmds: seq<Effect>): bool {
    if cmds == [] then hidden else cmds[|cmds| - 1] == HideCursor
  }

  /** Over any event stream the show/hide requests strictly alternate, and the
      final state is the one the last request set. */
  lemma {:induction false} RunAlternates(hidden: bool, ignoredMods: KeyButMask, events: seq<Event>)
    ensures Alternating(hidden, Commands(Run(hidden, ignoredMods, events).effects))
    ensures Run(hidden, ignoredMods, events).hidden == StateAfter(hidden, Commands(Run(hidden, ignoredMods, events).effects))
  {
    if events != [] {
      var init := events[..|events| - 1];
      RunAlternates(hidden, ignoredMods, init);
      var before := Run(hidden, ignoredMods, init);
      var last := Step(before.hidden, ignoredMods, events[|events| - 1]);
      CommandsAppend(before.effects, last.effects);
      StepSpec(before.hidden, ignoredMods, events[|events| - 1]);
      AlternatingExtend(hidden, Commands(before.effects), last.hidden);
    }
  }

  /** Appending the request a state change calls for keeps requests alternating. */
  lemma AlternatingExtend(hidden: bool, cmds: seq<Effect>, hidden': bool)
    requires Alternating(hidden, cmds)
    ensures var next := if hidden' == StateAfter(hidden, cmds) then []
                        else [if hidden' then HideCursor else ShowCursor];
            Alternating(hidden, cmds + next) && StateAfter(hidden, cmds + next) == hidden'
  {
    var next := if hidden' == StateAfter(hidden, cmds) then [] else [if hidden' then HideCursor else ShowCursor];
    if next == [] {
      assert cmds + next == cmds;
    } else {
      assert forall i :: 0 <= i < |cmds| ==> (cmds + next)[i] == cmds[i];
    }
  }

  /** From the initial state (shown), the first request is HideCursor, no two
      consecutive requests are the same, and the pointer is hidden exactly when
      the last request sent was HideCursor. */
  lemma FromStartAlternates(ignoredMods: KeyButMask, events: seq<Event>)
    ensures var r := Run(false, ignoredMods, events);
            var cmds := Commands(r.effects);
            (cmds != [] ==> cmds[0] == HideCursor)
            && (forall i :: 0 <= i < |cmds| - 1 ==> cmds[i] != cmds[i + 1])
            && (r.hidden <==> cmds != [] && cmds[|cmds| - 1] == HideCursor)
  {
    RunAlternates(false, ignoredMods, events);
  }

  /** The devices enabled by presence notifications in a stream, in order. */
  function EnabledDevices(events: seq<Event>): seq<bv8> {
    if events == [] then []
    else
      var e := events[|events| - 1];
      EnabledDevices(events[..|events| - 1])
      + (if e.DevicePresenceNotify? && e.devchange == Enabled then [e.deviceId] else [])
  }

  /** `snoop_device` runs once for each Enabled presence notification, in order,
      and for nothing else. */
  lemma {:induction false} RunSubscribesEnabled(hidden: bool, ignoredMods: KeyButMask, events: seq<Event>)
    ensures Subscriptions(Run(hidden, ignoredMods, events).effects) == EnabledDevices(events)
  {
    if events != [] {
      var init := events[..|events| - 1];
      RunSubscribesEnabled(hidden, ignoredMods, init);
      var before := Run(hidden, ignoredMods, init);
      CommandsAppend(before.effects, Step(before.hidden, ignoredMods, events[|events| - 1]).effects);
      StepSpec(before.hidden, ignoredMods, events[|events| - 1]);
    }
  }

  /** Running one more event is one more step after the run so far. */
  lemma RunPrefix(hidden: bool, ignoredMods: KeyButMask, events: seq<Event>, i: nat)
    requires i < |events|
    ensures var before := Run(hidden, ignoredMods, events[..i]);
            var last := Step(before.hidden, ignoredMods, events[i]);
            Run(hidden, ignoredMods, events[..i + 1]) == StepResult(last.hidden, before.effects + last.effects)
  {
    assert events[..i + 1][..i] == events[..i];
  }

  /** The requests the main loop's `snoop_device` runs send: one run per
      Enabled presence notification, in order, `replies[i]` being the server's
      OpenDevice reply to the run `events[i]` triggers. A device enabled twice
      is opened twice and may report different classes each time. */
  function ResubscribeRequests(rawmotion: bool, events: seq<Event>, replies: seq<seq<ClassInfo>>): seq<Request>
    requires |replies| == |events|
  {
    if events == [] then []
    else
      var e := events[|events| - 1];
      ResubscribeRequests(rawmotion, events[..|events| - 1], replies[..|replies| - 1])
      + if e.DevicePresenceNotify? && e.devchange == Enabled
        then SnoopRequests(rawmotion, e.deviceId, replies[|replies| - 1]) else []
  }

  /** One more event subscribes one more device when it enables one. */
  lemma ResubscribePrefix(rawmotion: bool, events: seq<Event>, replies: seq<seq<ClassInfo>>, i: nat)
    requires |replies| == |events| && i < |events|
    ensures ResubscribeRequests(rawmotion, events[..i + 1], replies[..i + 1])
            == ResubscribeRequests(rawmotion, events[..i], replies[..i])
               + if events[i].DevicePresenceNotify? && events[i].devchange == Enabled
                 then SnoopRequests(rawmotion, events[i].deviceId, replies[i]) else []
  {
    assert events[..i + 1][..i] == events[..i];
    assert replies[..i + 1][..i] == replies[..i];
  }

  /** The main loop opens exactly the devices presence notifications enable,
      once per notification, in order. */
  lemma {:induction false} ResubscribeOpensEnabled(rawmotion: bool, events: seq<Event>, replies: seq<seq<ClassInfo>>)
    requires |replies| == |events|
    ensures OpenedIds(ResubscribeRequests(rawmotion, events, replies)) == EnabledDevices(events)
  {
    if events != [] {
      var init, e := events[..|events| - 1], events[|events| - 1];
      var initReplies, reply := replies[..|replies| - 1], replies[|replies| - 1];
      ResubscribeOpensEnabled(rawmotion, init, initReplies);
      var tail := if e.DevicePresenceNotify? && e.devchange == Enabled
                  then SnoopRequests(rawmotion, e.deviceId, reply) else [];
      OpenedIdsAppend(ResubscribeRequests(rawmotion, init, initReplies), tail);
      if e.DevicePresenceNotify? && e.devchange == Enabled {
        OpenedIdsSnoop(rawmotion, e.deviceId, reply);
      }
    }
  }

  /** Over a whole session the devices opened are those startup subscribes,
      then those presence notifications enable. */
  lemma SessionOpens(rawmotion: bool, devices: seq<DeviceInfo>, startupReplies: seq<seq<ClassInfo>>,
                     events: seq<Event>, replies: seq<seq<ClassInfo>>)
    requires |startupReplies| == |devices| && |replies| == |events|
    ensures OpenedIds(StartupRequests(rawmotion, devices, startupReplies) + ResubscribeRequests(rawmotion, events, replies))
            == SnoopedIds(devices) + EnabledDevices(events)
  {
    StartupOpensSnoopedDevices(rawmotion, devices, startupReplies);
    ResubscribeOpensEnabled(rawmotion, events, replies);
    OpenedIdsAppend(StartupRequests(rawmotion, devices, startupReplies), ResubscribeRequests(rawmotion, events, replies));
  }

  /** One iteration of the main loop's `match`: the new `hidden` flag, the
      effects, and the requests of the `snoop_device` run an Enabled presence
      notification triggers, `reply` being the server's OpenDevice reply. */
  method HandleEvent(hidden: bool, ignoredMods: KeyButMask, rawmotion: bool, reply: seq<ClassInfo>, e: Event)
    returns (hidden': bool, effects: seq<Effect>, requests: seq<Request>)
    ensures StepResult(hidden', effects) == Step(hidden, ignoredMods, e)
    ensures requests == if e.DevicePresenceNotify? && e.devchange == Enabled
                        then SnoopRequests(rawmotion, e.deviceId, reply) else []
  {
    hidden', effects, requests := hidden, [], [];
    match e {
      case RawMotion | RawButtonPress =>
        if hidden {
          effects := [ShowCursor];
          hidden' := false;
        }
      case DeviceKeyRelease(state) =>
        if Intersects(state, ignoredMods) {
          return;
        }
        if !hidden {
          effects := [HideCursor];
          hidden' := true;
        }
      case DevicePresenceNotify(devchange, deviceId) =>
        if devchange == Enabled {
          var found;
          requests, found := SnoopDevice(rawmotion, deviceId, reply);
          effects := [SubscribeDevice(deviceId)];
        }
      case MappingNotify =>
      case Other =>
    }
  }

  /** The `loop` of `main` over `events`, starting with the pointer shown;
      `replies[i]` is the server's OpenDevice reply to the `snoop_device` run
      `events[i]` triggers, if it triggers one. */
  method MainLoop(ignoredMods: KeyButMask, rawmotion: bool, events: seq<Event>, replies: seq<seq<ClassInfo>>)
    returns (hidden: bool, effects: seq<Effect>, requests: seq<Request>)
    requires |replies| == |events|
    ensures StepResult(hidden, effects) == Run(false, ignoredMods, events)
    ensures requests == ResubscribeRequests(rawmotion, events, replies)
  {
    hidden := false;
    effects := [];
    requests := [];
    assert events[..0] == [] && replies[..0] == [];
    for i := 0 to |events|
      invariant StepResult(hidden, effects) == Run(false, ignoredMods, events[..i])
      invariant requests == ResubscribeRequests(rawmotion, events[..i], replies[..i])
    {
      RunPrefix(false, ignoredMods, events, i);
      ResubscribePrefix(rawmotion, events, replies, i);
      var more, sent;
      hidden, more, sent := HandleEvent(hidden, ignoredMods, rawmotion, replies[i], events[i]);
      effects := effects + more;
      requests := requests + sent;
    }
    assert events[..|events|] == events && replies[..|replies|] == replies;
  }

  /** `main` from the parsed `--ignore-mod` options on: fold them into the
      ignored mask, subscribe to the listed `devices` (`snoop_xinput` after its
      XInput 2 negotiation, whose outcome is `rawmotion`), then run the main
      loop. `startupReplies[j]` is the server's OpenDevice reply for
      `devices[j]`. */
  method Banish(mods: seq<Mod>, rawmotion: bool, devices: seq<DeviceInfo>, startupReplies: seq<seq<ClassInfo>>,
                events: seq<Event>, replies: seq<seq<ClassInfo>>)
    returns (hidden: bool, effects: seq<Effect>, requests: seq<Request>)
    requires |startupReplies| == |devices| && |replies| == |events|
    ensures StepResult(hidden, effects) == Run(false, IgnoreMask(mods), events)
    ensures hidden <==> var cmds := Commands(effects); cmds != [] && cmds[|cmds| - 1] == HideCursor
    ensures requests == StartupRequests(rawmotion, devices, startupReplies)
                        + ResubscribeRequests(rawmotion, events, replies)
  {
    var ignoredMods := IgnoreMask(mods);
    var startup, anyFound := SnoopXInput(rawmotion, devices, startupReplies);
    var sent;
    hidden, effects, sent := MainLoop(ignoredMods, rawmotion, events, replies);
    requests := startup + sent;
    FromStartAlternates(ignoredMods, events);
  }

  /** With no ignored modifiers: a key release hides, raw motion shows, and a
      later key release with Shift held hides again. */
  lemma ScenarioNothingIgnored()
    ensures Run(false, IgnoreMask([]), [DeviceKeyRelease({}), RawMotion, DeviceKeyRelease({ShiftBit})])
            == StepResult(true, [HideCursor, ShowCursor, HideCursor])
  {
    var events := [DeviceKeyRelease({}), RawMotion, DeviceKeyRelease({ShiftBit})];
    var m := IgnoreMask([]);
    assert m == {};
    RunPrefix(false, m, events, 0);
    RunPrefix(false, m, events, 1);
    RunPrefix(false, m, events, 2);
    assert events[..0] == [] && events[..3] == events;
  }

  /** With Shift ignored: releasing a key with Shift held does nothing; a plain
      key release then hides. */
  lemma ScenarioShiftIgnored()
    ensures Run(false, IgnoreMask([Shift]), [DeviceKeyRelease({ShiftBit}), DeviceKeyRelease({})])
            == StepResult(true, [HideCursor])
  {
    var events := [DeviceKeyRelease({ShiftBit}), DeviceKeyRelease({})];
    var m := IgnoreMask([Shift]);
    assert [Shift][..0] == [];
    assert m == {ShiftBit};
    assert Intersects({ShiftBit}, m) by {
      assert ShiftBit in {ShiftBit} * m;
    }
    RunPrefix(false, m, events, 0);
    RunPrefix(false, m, events, 1);
    assert events[..0] == [] && events[..2] == events;
  }

  /** Enabling device 7 subscribes it once and sends no show/hide request. */
  lemma ScenarioDeviceEnabled(ignoredMods: KeyButMask)
    ensures Run(false, ignoredMods, [DevicePresenceNotify(Enabled, 7)])
            == StepResult(false, [SubscribeDevice(7)])
  {
  }
}
