/** The operand of a SelectExtensionEvent request: a device identifier and an
    extension event type packed into one 32-bit value. */
module EventCode {

  /** `make_event_code`: the device identifier in bits 8..15, the event type in bits 0..7. */
  function MakeEventCode(deviceId: bv8, eventType: bv8): (code: bv32)
    ensures code == deviceId as bv32 * 0x100 + eventType as bv32
    ensures code < 0x1_0000
  {
    ((deviceId as bv32) << 8) | (eventType as bv32)
  }

  /** Splits an event code back into its device identifier and event type. */
  function DeviceOf(code: bv32): bv8
    requires code < 0x1_0000
  {
    (code >> 8) as bv8
  }

  function EventTypeOf(code: bv32): bv8 {
    (code & 0xFF) as bv8
  }

  /** Decoding recovers exactly what was packed. */
  lemma DecodeMake(deviceId: bv8, eventType: bv8)
    ensures DeviceOf(MakeEventCode(deviceId, eventType)) == deviceId
    ensures EventTypeOf(MakeEventCode(deviceId, eventType)) == eventType
  {
  }

  /** Every 16-bit value is the code of exactly one (device, event type) pair. */
  lemma MakeDecode(code: bv32)
    requires code < 0x1_0000
    ensures MakeEventCode(DeviceOf(code), EventTypeOf(code)) == code
  {
  }

  /** Distinct pairs never share a code. */
  lemma MakeEventCodeInjective(d1: bv8, t1: bv8, d2: bv8, t2: bv8)
    requires MakeEventCode(d1, t1) == MakeEventCode(d2, t2)
    ensures d1 == d2 && t1 == t2
  {
    DecodeMake(d1, t1);
    DecodeMake(d2, t2);
  }
}
