/**
 * The wildcard event type of src/HCIDump/Event/Unknown.php: default code
 * `'00'`, and a `_parse` that accepts every packet.
 */
module UnknownEvent {
  import opened Wrappers
  import opened Text
  import opened Events

  /**
   * `Unknown::_parse`: never rejects; the new event's `code` is the hex of
   * the code bytes actually seen, which decodes back to them.
   */
  function ParseUnknown(code: seq<byte>, params: seq<byte>): (r: Option<Event>)
    ensures r.Some?
    ensures Hex2Bin(r.value.code) == Some(code) && IsLowerHexText(r.value.code)
  {
    Hex2BinOfBin2Hex(code);
    Some(Event(Bin2Hex(code), ""))
  }

  /** The Unknown class: default code, its own `_parse`, the base `filter`. */
  const UnknownClass: EventClass := EventClass("00", ParseUnknown, DefaultFilter)

  /** The Unknown event's identity is the wildcard `'00'`. */
  lemma UnknownIsWildcard()
    ensures Code(UnknownClass) == "00"
  {
  }

  /** Through `parse`, an Unknown event carries the code seen and the payload, both as hex. */
  lemma UnknownParseResult(code: seq<byte>, params: seq<byte>)
    ensures Parse(UnknownClass, code, params) == Some(Event(Bin2Hex(code), Bin2Hex(params)))
  {
  }
}
