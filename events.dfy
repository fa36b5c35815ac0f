/**
 * The event packet type of src/HCIDump/Event.php: the per-class event code
 * identity, the `filter` hook on listener callbacks and the final `parse`
 * wrapper around a class's own parser.
 */
module Events {
  import opened Wrappers
  import opened Text

  /** A listener callback; the engine only stores, filters and invokes it. */
  type Callback = nat

  /** A parsed event: the public fields `code` and `params` of an Event object. */
  datatype Event = Event(code: string, params: string)

  /**
   * A concrete Event class: the default of its `code` property, its own
   * `_parse` and its `filter`.
   */
  datatype EventClass = EventClass(
    code: string,
    parseFn: (seq<byte>, seq<byte>) -> Option<Event>,
    filter: Callback -> Callback)

  /**
   * `getCode`: the identity every instance of a class shares, fixed on the
   * first construction as the class's default `code`, falling back to
   * `'00'` when that default is falsy.
   */
  function Code(cls: EventClass): (r: string)
    ensures !Falsy(r)
    ensures !Falsy(cls.code) ==> r == cls.code
    ensures Falsy(cls.code) ==> r == "00"
  {
    if Falsy(cls.code) then "00" else cls.code
  }

  /** The base `filter`: hands the callback back unchanged. */
  function DefaultFilter(callback: Callback): (r: Callback)
    ensures r == callback
  {
    callback
  }

  /** The base `_parse`: rejects every packet. */
  function BaseParse(code: seq<byte>, params: seq<byte>): (r: Option<Event>)
    ensures r.None?
  {
    None
  }

  /**
   * `parse`: null exactly when the class's `_parse` rejects; otherwise that
   * result with `params` set to the payload's hex.
   */
  function Parse(cls: EventClass, code: seq<byte>, params: seq<byte>): (r: Option<Event>)
    ensures r.None? <==> cls.parseFn(code, params).None?
    ensures r.Some? ==> (r.value.params == Bin2Hex(params)
      && r.value.code == cls.parseFn(code, params).value.code)
  {
    match cls.parseFn(code, params)
    case None => None
    case Some(evt) => Some(evt.(params := Bin2Hex(params)))
  }

  /** A class that keeps the base `_parse` never yields an event. */
  lemma BaseClassRejects(cls: EventClass, code: seq<byte>, params: seq<byte>)
    requires cls.parseFn == BaseParse
    ensures Parse(cls, code, params).None?
  {
  }
}
