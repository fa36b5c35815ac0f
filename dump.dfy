/**
 * The engine of src/HCIDump.php: the handler and listener registries, the
 * stream buffer fed from `hcidump -R` and the dispatch of every complete
 * packet to the listeners of its opcode or event code and of the wildcard.
 *
 * A listener is an opaque `Callback`; calling it is modelled by appending a
 * `Delivery` (subscription id, callback, parsed packet) to `deliveries`.
 */
module Dump {
  import opened Wrappers
  import opened Text
  import opened Commands
  import opened Events
  import UnknownCommand
  import UnknownEvent
  import opened Stream
  import Chunking
  import opened Adapters

  /** `_cb_cmd` / `_cb_evt`: upper-cased opcode or code to (subscription id to callback). */
  type Listeners = map<string, map<nat, Callback>>

  /** The parsed object handed to every listener. */
  datatype Packet = CommandPacket(command: Command) | EventPacket(event: Event)

  /** One listener call: which subscription, which callback, with what. */
  datatype Delivery = Delivery(id: nat, callback: Callback, packet: Packet)

  /** The keys that stand for "any opcode" and "any event code". */
  const AnyOpcode := "0000"
  const AnyCode := "00"

  // ---------------------------------------------------------------------
  // Handler registries

  /**
   * `addCommandHandler` (lines 37-41): the class is stored under its
   * upper-cased opcode unless that key is taken; an existing handler is
   * never replaced.
   */
  function WithCommandHandler(m: map<string, CommandClass>, cls: CommandClass): (r: map<string, CommandClass>)
    ensures r.Keys == m.Keys + {ToUpper(Opcode(cls))}
    ensures forall k :: k in m ==> r[k] == m[k]
    ensures ToUpper(Opcode(cls)) !in m ==> r[ToUpper(Opcode(cls))] == cls
  {
    var key := ToUpper(Opcode(cls));
    if key in m then m else m[key := cls]
  }

  /** `getCommandHandler` (lines 42-44): the handler stored under the upper-cased opcode, if any. */
  function LookupCommandHandler(m: map<string, CommandClass>, opcode: string): (r: Option<CommandClass>)
    ensures r.Some? <==> ToUpper(opcode) in m
    ensures r.Some? ==> r.value == m[ToUpper(opcode)]
  {
    var key := ToUpper(opcode);
    if key in m then Some(m[key]) else None
  }

  /**
   * `addEventHandler` (lines 46-50): the test for a taken key upper-cases the
   * code, but the class is stored under the code as written.
   */
  function WithEventHandler(m: map<string, EventClass>, cls: EventClass): (r: map<string, EventClass>)
    ensures ToUpper(Code(cls)) in m ==> r == m
    ensures ToUpper(Code(cls)) !in m ==> r.Keys == m.Keys + {Code(cls)} && r[Code(cls)] == cls
    ensures forall k :: k in m && k != Code(cls) ==> k in r && r[k] == m[k]
  {
    if ToUpper(Code(cls)) in m then m else m[Code(cls) := cls]
  }

  /** `getEventHandler` (lines 51-53): the handler stored under the upper-cased code, if any. */
  function LookupEventHandler(m: map<string, EventClass>, code: string): (r: Option<EventClass>)
    ensures r.Some? <==> ToUpper(code) in m
    ensures r.Some? ==> r.value == m[ToUpper(code)]
  {
    var key := ToUpper(code);
    if key in m then Some(m[key]) else None
  }

  /** A registered command handler is found under its opcode written in either case. */
  lemma CommandHandlerFound(m: map<string, CommandClass>, cls: CommandClass)
    requires ToUpper(Opcode(cls)) !in m
    ensures LookupCommandHandler(WithCommandHandler(m, cls), Opcode(cls)) == Some(cls)
    ensures LookupCommandHandler(WithCommandHandler(m, cls), ToUpper(Opcode(cls))) == Some(cls)
  {
    UpperOfLower(Opcode(cls));
  }

  /** The first command handler for an opcode wins: a second one for the same opcode is ignored. */
  lemma CommandHandlerFirstWins(m: map<string, CommandClass>, first: CommandClass, second: CommandClass)
    requires ToUpper(Opcode(first)) == ToUpper(Opcode(second))
    ensures WithCommandHandler(WithCommandHandler(m, first), second) == WithCommandHandler(m, first)
  {
  }

  /** Command handler lookup ignores the case of the opcode asked for. */
  lemma CommandLookupIgnoresCase(m: map<string, CommandClass>, opcode: string)
    ensures LookupCommandHandler(m, ToLower(opcode)) == LookupCommandHandler(m, opcode)
    ensures LookupCommandHandler(m, ToUpper(opcode)) == LookupCommandHandler(m, opcode)
  {
    UpperOfLower(opcode);
  }

  /** Event handler lookup ignores the case of the code asked for. */
  lemma EventLookupIgnoresCase(m: map<string, EventClass>, code: string)
    ensures LookupEventHandler(m, ToLower(code)) == LookupEventHandler(m, code)
    ensures LookupEventHandler(m, ToUpper(code)) == LookupEventHandler(m, code)
  {
    UpperOfLower(code);
  }

  /** For an upper-case code the first event handler wins and is found in either case. */
  lemma UpperEventHandlerFirstWins(m: map<string, EventClass>, first: EventClass, second: EventClass)
    requires Code(first) == ToUpper(Code(first)) && Code(second) == Code(first)
    requires Code(first) !in m
    ensures var r := WithEventHandler(WithEventHandler(m, first), second);
      && r == WithEventHandler(m, first)
      && LookupEventHandler(r, Code(first)) == Some(first)
      && LookupEventHandler(r, ToLower(Code(first))) == Some(first)
  {
    UpperOfLower(Code(first));
  }

  /**
   * A code with a lower-case letter is stored where no lookup looks: after
   * registering, lookups by that code give what they gave before.
   */
  lemma LowerEventCodeNeverFound(m: map<string, EventClass>, cls: EventClass, code: string)
    requires Code(cls) != ToUpper(Code(cls))
    ensures LookupEventHandler(WithEventHandler(m, cls), code) == LookupEventHandler(m, code)
  {
    UpperOfLower(code);
  }

  /** For a code with a lower-case letter nothing stops a second registration: the last one is stored. */
  lemma LowerEventCodeOverwritten(m: map<string, EventClass>, first: EventClass, second: EventClass)
    requires Code(first) != ToUpper(Code(first)) && Code(second) == Code(first)
    requires ToUpper(Code(first)) !in m
    ensures WithEventHandler(WithEventHandler(m, first), second)[Code(first)] == second
  {
  }

  // ---------------------------------------------------------------------
  // Listener registries

  /** Ids are positive and at most the counter, and no bucket is left empty. */
  predicate ListenersBelow(cb: Listeners, idx: nat) {
    forall k :: k in cb ==> cb[k] != map[] && forall id :: id in cb[k] ==> 1 <= id <= idx
  }

  /** An id is subscribed under at most one key. */
  predicate SingleBucket(cb: Listeners) {
    forall k1, k2, id :: k1 in cb && k2 in cb && id in cb[k1] && id in cb[k2] ==> k1 == k2
  }

  /** No id is subscribed both to commands and to events. */
  predicate Apart(cmd: Listeners, evt: Listeners) {
    forall k1, k2, id :: k1 in cmd && k2 in evt && id in cmd[k1] ==> id !in evt[k2]
  }

  /** Lines 63-64: the callback stored under `key` with id `id`, the bucket created if missing. */
  function WithListener(cb: Listeners, key: string, id: nat, callback: Callback): (r: Listeners)
    ensures r.Keys == cb.Keys + {key}
    ensures id in r[key] && r[key][id] == callback
    ensures forall j :: j in r[key] && j != id ==> key in cb && j in cb[key] && r[key][j] == cb[key][j]
    ensures key in cb ==> forall j :: j in cb[key] && j != id ==> j in r[key]
    ensures forall k :: k in cb && k != key ==> r[k] == cb[k]
  {
    cb[key := (if key in cb then cb[key] else map[])[id := callback]]
  }

  /** A bucket without the id `index`. */
  function WithoutId(bucket: map<nat, Callback>, index: int): (r: map<nat, Callback>)
    ensures forall j :: j in r <==> j in bucket && j != index
    ensures forall j :: j in r ==> r[j] == bucket[j]
  {
    map j | j in bucket && j != index :: bucket[j]
  }

  /**
   * `removeCommandListener` / `removeEventListener` (lines 90-116): id
   * `index` is deleted from every bucket and buckets left empty are dropped.
   */
  function WithoutListener(cb: Listeners, index: int): (r: Listeners)
    ensures forall k :: k in r ==> r[k] != map[] && forall j :: j in r[k] ==> j != index
    ensures forall k, j :: k in cb && j in cb[k] && j != index ==> k in r && j in r[k] && r[k][j] == cb[k][j]
    ensures forall k, j :: k in r && j in r[k] ==> k in cb && j in cb[k]
  {
    map k | k in cb && WithoutId(cb[k], index) != map[] :: WithoutId(cb[k], index)
  }

  /** The buckets whose keys are in `done` have had `index` removed; the others are as they were. */
  ghost function RemovedIn(cb: Listeners, index: int, done: set<string>): Listeners {
    map k | k in cb && (k !in done || WithoutId(cb[k], index) != map[]) :: if k in done then WithoutId(cb[k], index) else cb[k]
  }

  /** The `foreach` of lines 91-97 and 105-111: each bucket in turn loses `index`, and is dropped if empty. */
  method RemoveListener(cb: Listeners, index: int) returns (r: Listeners)
    ensures r == WithoutListener(cb, index)
  {
    r := cb;
    var todo := cb.Keys;
    ghost var done: set<string> := {};
    while todo != {}
      invariant todo !! done && todo + done == cb.Keys
      invariant r == RemovedIn(cb, index, done)
      decreases |todo|
    {
      var k :| k in todo;
      var bucket := WithoutId(r[k], index);
      RemovedInStep(cb, index, done, k);
      if bucket == map[] {
        r := r - {k};
      } else {
        r := r[k := bucket];
      }
      todo := todo - {k};
      done := done + {k};
    }
    assert done == cb.Keys;
    RemovedInAll(cb, index);
  }

  /** One more bucket done: it loses `index`, and goes when that empties it. */
  lemma RemovedInStep(cb: Listeners, index: int, done: set<string>, k: string)
    requires k in cb && k !in done
    ensures var r := RemovedIn(cb, index, done);
      var bucket := WithoutId(cb[k], index);
      && k in r && r[k] == cb[k]
      && RemovedIn(cb, index, done + {k}) == if bucket == map[] then r - {k} else r[k := bucket]
  {
    var r := RemovedIn(cb, index, done);
    var bucket := WithoutId(cb[k], index);
    var r' := if bucket == map[] then r - {k} else r[k := bucket];
    assert RemovedIn(cb, index, done + {k}).Keys == r'.Keys;
  }

  /** With every bucket done, the result is the registry without `index`. */
  lemma RemovedInAll(cb: Listeners, index: int)
    ensures RemovedIn(cb, index, cb.Keys) == WithoutListener(cb, index)
  {
    assert RemovedIn(cb, index, cb.Keys).Keys == WithoutListener(cb, index).Keys;
  }

  /** The invariant of `_cb_cmd`, `_cb_evt` and `_cb_idx` together. */
  predicate RegistryOk(cmd: Listeners, evt: Listeners, idx: nat) {
    && ListenersBelow(cmd, idx) && ListenersBelow(evt, idx)
    && SingleBucket(cmd) && SingleBucket(evt) && Apart(cmd, evt)
  }

  /** A command listener added with the next counter value gets a fresh id and keeps the invariant. */
  lemma AddCommandListenerOk(cmd: Listeners, evt: Listeners, key: string, idx: nat, callback: Callback)
    requires RegistryOk(cmd, evt, idx)
    ensures RegistryOk(WithListener(cmd, key, idx + 1, callback), evt, idx + 1)
    ensures forall k :: k in cmd ==> idx + 1 !in cmd[k]
    ensures forall k :: k in evt ==> idx + 1 !in evt[k]
  {
    AddedBelow(cmd, key, idx, callback);
    AddedSingle(cmd, key, idx, callback);
    AddedApart(cmd, evt, key, idx, callback);
    BelowLater(evt, idx);
  }

  /** An event listener added with the next counter value gets a fresh id and keeps the invariant. */
  lemma AddEventListenerOk(cmd: Listeners, evt: Listeners, key: string, idx: nat, callback: Callback)
    requires RegistryOk(cmd, evt, idx)
    ensures RegistryOk(cmd, WithListener(evt, key, idx + 1, callback), idx + 1)
    ensures forall k :: k in cmd ==> idx + 1 !in cmd[k]
    ensures forall k :: k in evt ==> idx + 1 !in evt[k]
  {
    AddedBelow(evt, key, idx, callback);
    AddedSingle(evt, key, idx, callback);
    ApartSwapped(cmd, evt);
    AddedApart(evt, cmd, key, idx, callback);
    ApartSwapped(WithListener(evt, key, idx + 1, callback), cmd);
    BelowLater(cmd, idx);
  }

  /** The new id is above every id in use, and every id stays below the new counter. */
  lemma AddedBelow(cb: Listeners, key: string, idx: nat, callback: Callback)
    requires ListenersBelow(cb, idx)
    ensures ListenersBelow(WithListener(cb, key, idx + 1, callback), idx + 1)
    ensures forall k :: k in cb ==> idx + 1 !in cb[k]
  {
  }

  /** A fresh id goes into one bucket only. */
  lemma AddedSingle(cb: Listeners, key: string, idx: nat, callback: Callback)
    requires ListenersBelow(cb, idx) && SingleBucket(cb)
    ensures SingleBucket(WithListener(cb, key, idx + 1, callback))
  {
    var r := WithListener(cb, key, idx + 1, callback);
    forall k1, k2, id | k1 in r && k2 in r && id in r[k1] && id in r[k2]
      ensures k1 == k2
    {
      if id != idx + 1 {
        assert id in cb[k1] && id in cb[k2];
      }
    }
  }

  /** A fresh id on one side is on no other. */
  lemma AddedApart(cb: Listeners, other: Listeners, key: string, idx: nat, callback: Callback)
    requires ListenersBelow(other, idx) && Apart(cb, other)
    ensures Apart(WithListener(cb, key, idx + 1, callback), other)
  {
    var r := WithListener(cb, key, idx + 1, callback);
    forall k1, k2, id | k1 in r && k2 in other && id in r[k1]
      ensures id !in other[k2]
    {
      if id != idx + 1 {
        assert id in cb[k1];
      }
    }
  }

  lemma ApartSwapped(a: Listeners, b: Listeners)
    ensures Apart(a, b) <==> Apart(b, a)
  {
  }

  lemma BelowLater(cb: Listeners, idx: nat)
    requires ListenersBelow(cb, idx)
    ensures ListenersBelow(cb, idx + 1)
  {
  }

  /** Removing a command listener keeps the invariant. */
  lemma RemoveCommandListenerOk(cmd: Listeners, evt: Listeners, index: int, idx: nat)
    requires RegistryOk(cmd, evt, idx)
    ensures RegistryOk(WithoutListener(cmd, index), evt, idx)
  {
  }

  /** Removing an event listener keeps the invariant. */
  lemma RemoveEventListenerOk(cmd: Listeners, evt: Listeners, index: int, idx: nat)
    requires RegistryOk(cmd, evt, idx)
    ensures RegistryOk(cmd, WithoutListener(evt, index), idx)
  {
  }

  // ---------------------------------------------------------------------
  // Dispatch

  /** Lines 337 and 358: the handler of the specific key, else the one of the wildcard key. */
  function Resolve<T>(m: map<string, T>, key: string, wildcard: string): (r: Option<T>)
    ensures key in m ==> r == Some(m[key])
    ensures key !in m && wildcard in m ==> r == Some(m[wildcard])
    ensures r.None? <==> key !in m && wildcard !in m
  {
    if key in m then Some(m[key]) else if wildcard in m then Some(m[wildcard]) else None
  }

  /**
   * Lines 344 and 365: the listeners of the specific key and of the
   * wildcard; an id in both keeps the specific callback.
   */
  function Merged(cb: Listeners, key: string, wildcard: string): (r: map<nat, Callback>)
    ensures forall id :: id in r <==> (key in cb && id in cb[key]) || (wildcard in cb && id in cb[wildcard])
    ensures forall id :: key in cb && id in cb[key] ==> r[id] == cb[key][id]
    ensures forall id :: id in r && !(key in cb && id in cb[key]) ==> r[id] == cb[wildcard][id]
  {
    (if wildcard in cb then cb[wildcard] else map[]) + (if key in cb then cb[key] else map[])
  }

  /** The least id of a non-empty set. */
  ghost function Least(s: set<nat>): (m: nat)
    requires s != {}
    ensures m in s && forall x :: x in s ==> m <= x
  {
    var y :| y in s;
    assert forall x :: x in s ==> x == y || x in s - {y};
    if s == {y} then y
    else
      var m := Least(s - {y});
      if y < m then y else m
  }

  /** `ksort` of a set of ids: the least first, then the rest in the same order. */
  ghost function Ascending(s: set<nat>): seq<nat>
    decreases |s|
  {
    if s == {} then [] else [Least(s)] + Ascending(s - {Least(s)})
  }

  /** The ascending order lists every id of the set exactly once, smallest first. */
  lemma {:induction false} AscendingSorted(s: set<nat>)
    ensures |Ascending(s)| == |s|
    ensures forall x :: x in s <==> x in Ascending(s)
    ensures forall i, j :: 0 <= i < j < |Ascending(s)| ==> Ascending(s)[i] < Ascending(s)[j]
    decreases |s|
  {
    if s != {} {
      var m := Least(s);
      var rest := s - {m};
      AscendingSorted(rest);
      var r := Ascending(s);
      assert r == [m] + Ascending(rest);
      forall i, j | 0 <= i < j < |r|
        ensures r[i] < r[j]
      {
        if i == 0 {
          assert r[j] == Ascending(rest)[j - 1];
          assert r[j] in rest;
        } else {
          assert r[i] == Ascending(rest)[i - 1] && r[j] == Ascending(rest)[j - 1];
        }
      }
    }
  }

  /** `ksort($listeners)`: the ids taken smallest first. */
  method SortIds(s: set<nat>) returns (ids: seq<nat>)
    ensures ids == Ascending(s)
  {
    ids := [];
    var rest := s;
    while rest != {}
      invariant ids + Ascending(rest) == Ascending(s)
      decreases |rest|
    {
      var m :| m in rest && forall x :: x in rest ==> m <= x;
      assert m == Least(rest) by {
        assert m <= Least(rest) && Least(rest) <= m;
      }
      assert Ascending(rest) == [m] + Ascending(rest - {m});
      assert ids + Ascending(rest) == (ids + [m]) + Ascending(rest - {m});
      ids := ids + [m];
      rest := rest - {m};
    }
  }

  /** `foreach($listeners as $listener) $listener($packet)` over the ids in the order given. */
  function CallAll(ids: seq<nat>, listeners: map<nat, Callback>, p: Packet): (r: seq<Delivery>)
    requires forall i :: 0 <= i < |ids| ==> ids[i] in listeners
    ensures |r| == |ids|
    ensures forall i :: 0 <= i < |ids| ==> r[i] == Delivery(ids[i], listeners[ids[i]], p)
  {
    if |ids| == 0 then [] else CallAll(ids[..|ids| - 1], listeners, p) + [Delivery(ids[|ids| - 1], listeners[ids[|ids| - 1]], p)]
  }

  /** Lines 344-349 and 365-370: every listener called once with the packet, in ascending id order. */
  ghost function Notified(listeners: map<nat, Callback>, p: Packet): seq<Delivery> {
    AscendingSorted(listeners.Keys);
    CallAll(Ascending(listeners.Keys), listeners, p)
  }

  /** The listener calls one complete packet causes, as `_handlePacket` makes them (lines 330-374). */
  ghost function Dispatch(bin: seq<byte>, hndCmd: map<string, CommandClass>, cbCmd: Listeners,
                          hndEvt: map<string, EventClass>, cbEvt: Listeners): seq<Delivery>
  {
    var hdr := Bytes(bin, 0, 2);
    if hdr == [CommandMarkerByte, 0x01] then
      var opcBin := Bytes(bin, 2, 2);
      var opcHex := ToUpper(Bin2Hex(opcBin));
      match Resolve(hndCmd, opcHex, AnyOpcode)
      case None => []
      case Some(cls) =>
        match Commands.Parse(cls, opcBin, BytesFrom(bin, 5))
        case None => []
        case Some(cmd) => Notified(Merged(cbCmd, opcHex, AnyOpcode), CommandPacket(cmd))
    else if hdr == [EventMarkerByte, 0x04] then
      var codeBin := Bytes(bin, 2, 1);
      var codeHex := ToUpper(Bin2Hex(codeBin));
      match Resolve(hndEvt, codeHex, AnyCode)
      case None => []
      case Some(cls) =>
        match Events.Parse(cls, codeBin, BytesFrom(bin, 4))
        case None => []
        case Some(evt) => Notified(Merged(cbEvt, codeHex, AnyCode), EventPacket(evt))
    else []
  }

  /** The listener calls of several packets, in order. */
  ghost function DispatchAll(packets: seq<seq<byte>>, hndCmd: map<string, CommandClass>, cbCmd: Listeners,
                             hndEvt: map<string, EventClass>, cbEvt: Listeners): seq<Delivery>
  {
    if |packets| == 0 then []
    else Dispatch(packets[0], hndCmd, cbCmd, hndEvt, cbEvt) + DispatchAll(packets[1..], hndCmd, cbCmd, hndEvt, cbEvt)
  }

  /** The calls the `foreach` of lines 347-349 and 368-370 makes, one listener after the other. */
  method ListenerCalls(listeners: map<nat, Callback>, p: Packet) returns (calls: seq<Delivery>)
    ensures calls == Notified(listeners, p)
  {
    var ids := SortIds(listeners.Keys);
    assert forall j :: 0 <= j < |ids| ==> ids[j] in listeners by {
      AscendingSorted(listeners.Keys);
    }
    calls := [];
    var i := 0;
    while i < |ids|
      invariant 0 <= i <= |ids|
      invariant forall j :: 0 <= j < |ids| ==> ids[j] in listeners
      invariant calls == CallAll(ids[..i], listeners, p)
    {
      var d := Delivery(ids[i], listeners[ids[i]], p);
      assert ids[..i + 1][..i] == ids[..i] && ids[..i + 1][i] == ids[i];
      calls := calls + [d];
      i := i + 1;
    }
    assert ids[..|ids|] == ids;
  }

  /** The deliveries are exactly one call per listener, in strictly ascending id order, all with packet `p`. */
  predicate CallsInOrder(d: seq<Delivery>, listeners: map<nat, Callback>, p: Packet) {
    && |d| == |listeners|
    && (forall i :: 0 <= i < |d| ==> d[i].id in listeners && d[i].callback == listeners[d[i].id] && d[i].packet == p)
    && (forall i, j :: 0 <= i < j < |d| ==> d[i].id < d[j].id)
    && (forall id :: id in listeners ==> exists i :: 0 <= i < |d| && d[i].id == id)
  }

  lemma NotifyInOrder(listeners: map<nat, Callback>, p: Packet)
    ensures CallsInOrder(Notified(listeners, p), listeners, p)
  {
    var ids := Ascending(listeners.Keys);
    var d := Notified(listeners, p);
    AscendingSorted(listeners.Keys);
    assert |listeners.Keys| == |listeners|;
    forall id | id in listeners
      ensures exists i :: 0 <= i < |d| && d[i].id == id
    {
      var i :| 0 <= i < |ids| && ids[i] == id;
      assert d[i].id == id;
    }
  }

  /**
   * Dispatch of a command packet: the handler is the opcode's, else the
   * wildcard's; `parse` gets the opcode bytes and the payload from byte 5;
   * a rejected parse calls nobody; otherwise every listener of the opcode
   * and of the wildcard is called once, in ascending id order.
   */
  lemma CommandDispatch(bin: seq<byte>, hndCmd: map<string, CommandClass>, cbCmd: Listeners,
                        hndEvt: map<string, EventClass>, cbEvt: Listeners)
    requires |bin| >= 5 && bin[0] == CommandMarkerByte && bin[1] == 0x01
    ensures var key := ToUpper(Bin2Hex(bin[2..4]));
      var d := Dispatch(bin, hndCmd, cbCmd, hndEvt, cbEvt);
      && (key !in hndCmd && AnyOpcode !in hndCmd ==> d == [])
      && (key in hndCmd || AnyOpcode in hndCmd ==>
            var cls := if key in hndCmd then hndCmd[key] else hndCmd[AnyOpcode];
            && (cls.parseFn(bin[2..4], bin[5..]).None? ==> d == [])
            && (cls.parseFn(bin[2..4], bin[5..]).Some? ==>
                  CallsInOrder(d, Merged(cbCmd, key, AnyOpcode), CommandPacket(Commands.Parse(cls, bin[2..4], bin[5..]).value))))
  {
    assert Bytes(bin, 0, 2) == [CommandMarkerByte, 0x01];
    var key := ToUpper(Bin2Hex(bin[2..4]));
    if key in hndCmd || AnyOpcode in hndCmd {
      var cls := if key in hndCmd then hndCmd[key] else hndCmd[AnyOpcode];
      var parsed := Commands.Parse(cls, bin[2..4], bin[5..]);
      if parsed.Some? {
        NotifyInOrder(Merged(cbCmd, key, AnyOpcode), CommandPacket(parsed.value));
      }
    }
  }

  /**
   * Dispatch of an event packet: the handler is the code's, else the
   * wildcard's; `parse` gets the code byte and the payload from byte 4; a
   * rejected parse calls nobody; otherwise every listener of the code and
   * of the wildcard is called once, in ascending id order.
   */
  lemma EventDispatch(bin: seq<byte>, hndCmd: map<string, CommandClass>, cbCmd: Listeners,
                      hndEvt: map<string, EventClass>, cbEvt: Listeners)
    requires |bin| >= 4 && bin[0] == EventMarkerByte && bin[1] == 0x04
    ensures var key := ToUpper(Bin2Hex(bin[2..3]));
      var d := Dispatch(bin, hndCmd, cbCmd, hndEvt, cbEvt);
      && (key !in hndEvt && AnyCode !in hndEvt ==> d == [])
      && (key in hndEvt || AnyCode in hndEvt ==>
            var cls := if key in hndEvt then hndEvt[key] else hndEvt[AnyCode];
            && (cls.parseFn(bin[2..3], bin[4..]).None? ==> d == [])
            && (cls.parseFn(bin[2..3], bin[4..]).Some? ==>
                  CallsInOrder(d, Merged(cbEvt, key, AnyCode), EventPacket(Events.Parse(cls, bin[2..3], bin[4..]).value))))
  {
    assert Bytes(bin, 0, 2) == [EventMarkerByte, 0x04];
    assert Bytes(bin, 0, 2) != [CommandMarkerByte, 0x01];
    var key := ToUpper(Bin2Hex(bin[2..3]));
    if key in hndEvt || AnyCode in hndEvt {
      var cls := if key in hndEvt then hndEvt[key] else hndEvt[AnyCode];
      var parsed := Events.Parse(cls, bin[2..3], bin[4..]);
      if parsed.Some? {
        NotifyInOrder(Merged(cbEvt, key, AnyCode), EventPacket(parsed.value));
      }
    }
  }

  /** The listener calls of one step: those of its packet, if it completes one. */
  ghost function DispatchOpt(o: Option<seq<byte>>, hndCmd: map<string, CommandClass>, cbCmd: Listeners,
                             hndEvt: map<string, EventClass>, cbEvt: Listeners): seq<Delivery>
  {
    if o.Some? then Dispatch(o.value, hndCmd, cbCmd, hndEvt, cbEvt) else []
  }

  /** A step that completes a packet makes that packet's calls before those of the packets after it. */
  lemma DispatchAllCons(o: Option<seq<byte>>, rest: seq<seq<byte>>, hndCmd: map<string, CommandClass>, cbCmd: Listeners,
                        hndEvt: map<string, EventClass>, cbEvt: Listeners)
    ensures DispatchAll(PacketsOf(o) + rest, hndCmd, cbCmd, hndEvt, cbEvt)
         == DispatchOpt(o, hndCmd, cbCmd, hndEvt, cbEvt) + DispatchAll(rest, hndCmd, cbCmd, hndEvt, cbEvt)
  {
    if o.None? {
      assert PacketsOf(o) + rest == rest;
    } else {
      assert (PacketsOf(o) + rest)[1..] == rest;
    }
  }

  /**
   * One invocation of `_onStdOut($chunk)` is the first step on the extended
   * buffer followed, when that step recurses, by `_onStdOut('')`; the listener
   * calls split the same way.
   */
  lemma FeedOneStep(a0: Assembly, chunk: string, hndCmd: map<string, CommandClass>, cbCmd: Listeners,
                    hndEvt: map<string, EventClass>, cbEvt: Listeners)
    requires Stream.Valid(a0)
    ensures var ck, ek := hndCmd.Keys, hndEvt.Keys;
      var a := a0.(buffStr := a0.buffStr + Sanitize(chunk));
      var s := Step(a, ck, ek);
      var f := Feed(a0, chunk, ck, ek);
      && Stream.Valid(a) && Stream.Valid(s.next)
      && (s.again ==> f.final == Feed(s.next, "", ck, ek).final
                       && DispatchAll(f.packets, hndCmd, cbCmd, hndEvt, cbEvt)
                          == DispatchOpt(s.packet, hndCmd, cbCmd, hndEvt, cbEvt) + DispatchAll(Feed(s.next, "", ck, ek).packets, hndCmd, cbCmd, hndEvt, cbEvt))
      && (!s.again ==> f.final == s.next
                        && DispatchAll(f.packets, hndCmd, cbCmd, hndEvt, cbEvt) == DispatchOpt(s.packet, hndCmd, cbCmd, hndEvt, cbEvt))
  {
    var ck, ek := hndCmd.Keys, hndEvt.Keys;
    var a := a0.(buffStr := a0.buffStr + Sanitize(chunk));
    var s := Step(a, ck, ek);
    AppendPreservesValid(a0, chunk);
    StepPreservesValid(a, ck, ek);
    DrainStep(a, ck, ek);
    if s.again {
      FeedNothing(s.next, ck, ek);
      DispatchAllCons(s.packet, Drain(s.next, ck, ek).packets, hndCmd, cbCmd, hndEvt, cbEvt);
    } else {
      DispatchAllCons(s.packet, [], hndCmd, cbCmd, hndEvt, cbEvt);
      assert PacketsOf(s.packet) + [] == PacketsOf(s.packet);
    }
  }

  /** The calls for a run of packets are the calls for its first part, then those for the rest. */
  lemma {:induction false} DispatchAllConcat(p: seq<seq<byte>>, q: seq<seq<byte>>, hndCmd: map<string, CommandClass>, cbCmd: Listeners,
                                             hndEvt: map<string, EventClass>, cbEvt: Listeners)
    ensures DispatchAll(p + q, hndCmd, cbCmd, hndEvt, cbEvt)
         == DispatchAll(p, hndCmd, cbCmd, hndEvt, cbEvt) + DispatchAll(q, hndCmd, cbCmd, hndEvt, cbEvt)
    decreases |p|
  {
    if |p| == 0 {
      assert p + q == q;
    } else {
      assert (p + q)[0] == p[0] && (p + q)[1..] == p[1..] + q;
      DispatchAllConcat(p[1..], q, hndCmd, cbCmd, hndEvt, cbEvt);
    }
  }

  /**
   * Two calls of `_onStdOut`, with the same handlers and listeners, make the
   * calls and leave the fields of one call on the joined chunks.
   */
  lemma FeedTwiceDispatch(a: Assembly, x: string, y: string, hndCmd: map<string, CommandClass>, cbCmd: Listeners,
                          hndEvt: map<string, EventClass>, cbEvt: Listeners)
    requires Valid(a)
    ensures var ck, ek := hndCmd.Keys, hndEvt.Keys;
      var d := Feed(a, x, ck, ek);
      var e := Feed(d.final, y, ck, ek);
      var j := Feed(a, x + y, ck, ek);
      && e.final == j.final
      && DispatchAll(d.packets, hndCmd, cbCmd, hndEvt, cbEvt) + DispatchAll(e.packets, hndCmd, cbCmd, hndEvt, cbEvt)
         == DispatchAll(j.packets, hndCmd, cbCmd, hndEvt, cbEvt)
  {
    var ck, ek := hndCmd.Keys, hndEvt.Keys;
    var d := Feed(a, x, ck, ek);
    var e := Feed(d.final, y, ck, ek);
    Chunking.FeedSplit(a, x, y, ck, ek);
    DispatchAllConcat(d.packets, e.packets, hndCmd, cbCmd, hndEvt, cbEvt);
  }

  lemma ConcatAssociative(a: seq<Delivery>, b: seq<Delivery>, c: seq<Delivery>)
    ensures (a + b) + c == a + (b + c)
  {
  }

  // ---------------------------------------------------------------------
  // The engine

  class HciDump {
    const adapter: Adapter
    var hndCmd: map<string, CommandClass>
    var cbCmd: Listeners
    var hndEvt: map<string, EventClass>
    var cbEvt: Listeners
    var cbIdx: nat
    var buffStr: string
    var buffBin: seq<byte>
    var dataLen: nat
    /** Every listener call made so far, in order. */
    var deliveries: seq<Delivery>

    /** The three stream fields as one value. */
    function State(): Assembly
      reads this`buffStr, this`buffBin, this`dataLen
    {
      Assembly(buffStr, buffBin, dataLen)
    }

    ghost predicate Valid()
      reads this`buffStr, this`buffBin, this`dataLen, this`cbCmd, this`cbEvt, this`cbIdx
    {
      Stream.Valid(State()) && Registered()
    }

    /** The subscription ids are those handed out so far, each under one key of one map. */
    ghost predicate Registered()
      reads this`cbCmd, this`cbEvt, this`cbIdx
    {
      RegistryOk(cbCmd, cbEvt, cbIdx)
    }

    /** Lines 29-31: no handlers, no listeners, an empty buffer. */
    constructor (hci: Adapter)
      ensures Valid()
      ensures adapter == hci && hndCmd == map[] && cbCmd == map[] && hndEvt == map[] && cbEvt == map[]
      ensures cbIdx == 0 && State() == Assembly("", [], 0) && deliveries == []
    {
      adapter := hci;
      hndCmd := map[];
      cbCmd := map[];
      hndEvt := map[];
      cbEvt := map[];
      cbIdx := 0;
      buffStr := "";
      buffBin := [];
      dataLen := 0;
      deliveries := [];
    }

    method AddCommandHandler(cls: CommandClass)
      modifies this`hndCmd
      ensures hndCmd == WithCommandHandler(old(hndCmd), cls)
    {
      var opc := ToUpper(Opcode(cls));
      if opc in hndCmd {
        return;
      }
      hndCmd := hndCmd[opc := cls];
    }

    function GetCommandHandler(opcode: string): (r: Option<CommandClass>)
      reads this
      ensures r == LookupCommandHandler(hndCmd, opcode)
    {
      var key := ToUpper(opcode);
      if key in hndCmd then Some(hndCmd[key]) else None
    }

    method AddEventHandler(cls: EventClass)
      modifies this`hndEvt
      ensures hndEvt == WithEventHandler(old(hndEvt), cls)
    {
      var code := ToUpper(Code(cls));
      if code in hndEvt {
        return;
      }
      hndEvt := hndEvt[Code(cls) := cls];
    }

    function GetEventHandler(code: string): (r: Option<EventClass>)
      reads this
      ensures r == LookupEventHandler(hndEvt, code)
    {
      var key := ToUpper(code);
      if key in hndEvt then Some(hndEvt[key]) else None
    }

    /**
     * Lines 59-72: the callback is stored under the class's upper-cased
     * opcode with the next counter value, which is returned; the class is
     * offered as a handler. The Unknown class is used when none is given.
     */
    method OnCommand(callback: Callback, cmd: Option<CommandClass>) returns (id: nat)
      requires Valid()
      modifies this`cbCmd, this`cbIdx, this`hndCmd
      ensures Valid()
      ensures id == old(cbIdx) + 1 && cbIdx == id
      ensures var cls := cmd.GetOr(UnknownCommand.UnknownClass);
        && cbCmd == WithListener(old(cbCmd), ToUpper(Opcode(cls)), id, callback)
        && hndCmd == WithCommandHandler(old(hndCmd), cls)
      ensures forall k :: k in old(cbCmd) ==> id !in old(cbCmd)[k]
      ensures forall k :: k in cbEvt ==> id !in cbEvt[k]
    {
      var cls := cmd.GetOr(UnknownCommand.UnknownClass);
      ghost var st := State();
      id := ListenCommand(ToUpper(Opcode(cls)), callback);
      ghost var registered := Registered();
      AddCommandHandler(cls);
      assert State() == st && Registered() == registered;
    }

    /** Line 64: `$this->_cb_cmd[$opcode][++$this->_cb_idx] = $cb`. */
    method ListenCommand(key: string, callback: Callback) returns (id: nat)
      requires Registered()
      modifies this`cbCmd, this`cbIdx
      ensures Registered()
      ensures id == old(cbIdx) + 1 && cbIdx == id
      ensures cbCmd == WithListener(old(cbCmd), key, id, callback)
      ensures forall k :: k in old(cbCmd) ==> id !in old(cbCmd)[k]
      ensures forall k :: k in cbEvt ==> id !in cbEvt[k]
    {
      ghost var c0, e0, i0 := cbCmd, cbEvt, cbIdx;
      cbCmd := WithListener(cbCmd, key, cbIdx + 1, callback);
      cbIdx := cbIdx + 1;
      id := cbIdx;
      AddCommandListenerOk(c0, e0, key, i0, callback);
    }

    /**
     * Lines 74-88: the class's `filter` of the callback is stored under the
     * upper-cased code with the next counter value, which is returned; the
     * class is offered as a handler. The Unknown class is used when none is
     * given.
     */
    method OnEvent(callback: Callback, evt: Option<EventClass>) returns (id: nat)
      requires Valid()
      modifies this`cbEvt, this`cbIdx, this`hndEvt
      ensures Valid()
      ensures id == old(cbIdx) + 1 && cbIdx == id
      ensures var cls := evt.GetOr(UnknownEvent.UnknownClass);
        && cbEvt == WithListener(old(cbEvt), ToUpper(Code(cls)), id, cls.filter(callback))
        && hndEvt == WithEventHandler(old(hndEvt), cls)
      ensures forall k :: k in old(cbEvt) ==> id !in old(cbEvt)[k]
      ensures forall k :: k in cbCmd ==> id !in cbCmd[k]
    {
      var cls := evt.GetOr(UnknownEvent.UnknownClass);
      ghost var st := State();
      id := ListenEvent(ToUpper(Code(cls)), cls.filter(callback));
      ghost var registered := Registered();
      AddEventHandler(cls);
      assert State() == st && Registered() == registered;
    }

    /** Line 79: `$this->_cb_evt[$code][++$this->_cb_idx] = $cb`, the callback already filtered. */
    method ListenEvent(key: string, callback: Callback) returns (id: nat)
      requires Registered()
      modifies this`cbEvt, this`cbIdx
      ensures Registered()
      ensures id == old(cbIdx) + 1 && cbIdx == id
      ensures cbEvt == WithListener(old(cbEvt), key, id, callback)
      ensures forall k :: k in old(cbEvt) ==> id !in old(cbEvt)[k]
      ensures forall k :: k in cbCmd ==> id !in cbCmd[k]
    {
      ghost var c0, e0, i0 := cbCmd, cbEvt, cbIdx;
      cbEvt := WithListener(cbEvt, key, cbIdx + 1, callback);
      cbIdx := cbIdx + 1;
      id := cbIdx;
      AddEventListenerOk(c0, e0, key, i0, callback);
    }

    /** Lines 90-102: id `index` leaves every command bucket; the handlers stay. */
    method RemoveCommandListener(index: int)
      requires Valid()
      modifies this`cbCmd
      ensures Valid()
      ensures cbCmd == WithoutListener(old(cbCmd), index)
    {
      RemoveCommandListenerOk(cbCmd, cbEvt, index, cbIdx);
      cbCmd := RemoveListener(cbCmd, index);
    }

    /** Lines 104-116: id `index` leaves every event bucket; the handlers stay. */
    method RemoveEventListener(index: int)
      requires Valid()
      modifies this`cbEvt
      ensures Valid()
      ensures cbEvt == WithoutListener(old(cbEvt), index)
    {
      RemoveEventListenerOk(cbCmd, cbEvt, index, cbIdx);
      cbEvt := RemoveListener(cbEvt, index);
    }

    /**
     * `_handlePacket` (lines 330-374): the listener calls of the packet in
     * the binary buffer, as `Dispatch` describes them.
     */
    method HandlePacket()
      modifies this`deliveries
      ensures deliveries == old(deliveries) + Dispatch(buffBin, hndCmd, cbCmd, hndEvt, cbEvt)
    {
      var hdr := Bytes(buffBin, 0, 2);
      if hdr == [CommandMarkerByte, 0x01] {
        var opcBin := Bytes(buffBin, 2, 2);
        var opcHex := ToUpper(Bin2Hex(opcBin));
        var cls := Resolve(hndCmd, opcHex, AnyOpcode);
        if cls.None? {
          return;
        }
        var cmd := Commands.Parse(cls.value, opcBin, BytesFrom(buffBin, 5));
        if cmd.None? {
          return;
        }
        var listeners := Merged(cbCmd, opcHex, AnyOpcode);
        Notify(listeners, CommandPacket(cmd.value));
        return;
      }
      if hdr == [EventMarkerByte, 0x04] {
        var codeBin := Bytes(buffBin, 2, 1);
        var codeHex := ToUpper(Bin2Hex(codeBin));
        var cls := Resolve(hndEvt, codeHex, AnyCode);
        if cls.None? {
          return;
        }
        var evt := Events.Parse(cls.value, codeBin, BytesFrom(buffBin, 4));
        if evt.None? {
          return;
        }
        var listeners := Merged(cbEvt, codeHex, AnyCode);
        Notify(listeners, EventPacket(evt.value));
        return;
      }
    }

    /** Lines 344-349 and 365-370: `ksort`, then each listener called in turn. */
    method Notify(listeners: map<nat, Callback>, p: Packet)
      modifies this`deliveries
      ensures deliveries == old(deliveries) + Notified(listeners, p)
    {
      var calls := ListenerCalls(listeners, p);
      deliveries := deliveries + calls;
    }

    /**
     * One invocation of `_onStdOut` on the buffered text (lines 199-327):
     * the buffer moves as `Step` says, `again` tells whether the invocation
     * ends by calling `_onStdOut('')`, and a completed packet is dispatched.
     */
    method StepOnce() returns (again: bool)
      modifies this`buffStr, this`buffBin, this`dataLen, this`deliveries
      ensures var s := Step(old(State()), hndCmd.Keys, hndEvt.Keys);
        && State() == s.next && again == s.again
        && deliveries == old(deliveries) + DispatchOpt(s.packet, hndCmd, cbCmd, hndEvt, cbEvt)
    {
      if |buffStr| == 0 {
        return false;
      }
      ghost var a := State();
      var data := "";
      match FirstMarker(buffStr) {
        case Some(m) =>
          data := buffStr[m..];
          buffStr := buffStr[..m];
        case None =>
      }
      if dataLen > 0 {
        again := ContinueOnce(a, data);
      } else {
        again := FrameOnce(a, data);
      }
    }

    /** Lines 214-246 and 323-327: a packet is in progress; take the payload that is there. */
    method ContinueOnce(ghost a: Assembly, data: string) returns (again: bool)
      requires a.dataLen > 0
      requires buffStr == BeforeMarker(a.buffStr) && data == FromMarker(a.buffStr)
      requires buffBin == a.buffBin && dataLen == a.dataLen
      modifies this`buffStr, this`buffBin, this`dataLen, this`deliveries
      ensures var s := Continue(a);
        && State() == s.next && again == s.again
        && deliveries == old(deliveries) + DispatchOpt(s.packet, hndCmd, cbCmd, hndEvt, cbEvt)
    {
      if |data| > 0 && |buffStr| < dataLen {
        // the next packet starts before this one is complete
        buffStr := "";
        buffBin := [];
        dataLen := 0;
        buffStr := data;
        again := true;
      } else {
        again := TakePayload(a, data);
      }
    }

    /** Lines 222-246 and 323-327: the payload characters before the next marker, an even number of them. */
    method TakePayload(ghost a: Assembly, data: string) returns (again: bool)
      requires a.dataLen > 0
      requires buffStr == BeforeMarker(a.buffStr) && data == FromMarker(a.buffStr)
      requires buffBin == a.buffBin && dataLen == a.dataLen
      requires !(|data| > 0 && |buffStr| < dataLen)
      modifies this`buffStr, this`buffBin, this`dataLen, this`deliveries
      ensures var s := Continue(a);
        && State() == s.next && again == s.again
        && deliveries == old(deliveries) + DispatchOpt(s.packet, hndCmd, cbCmd, hndEvt, cbEvt)
    {
      var blen := Min(|buffStr|, dataLen);
      blen := if blen % 2 == 1 then blen - 1 else blen;
      if blen == 0 {
        return false;
      }
      buffBin := buffBin + DecodeOrEmpty(buffStr[..blen]);
      dataLen := dataLen - blen;
      if dataLen > 0 {
        buffStr := buffStr[blen..];
        return false;
      }
      buffStr := "";
      dataLen := 0;
      HandlePacket();
      buffBin := [];
      if |data| > 0 {
        buffStr := data;
        again := true;
      } else {
        again := false;
      }
    }

    /** Lines 248-321: no packet is in progress; look for a header at the first marker. */
    method FrameOnce(ghost a: Assembly, data: string) returns (again: bool)
      requires |a.buffStr| > 0 && a.dataLen == 0
      requires data == FromMarker(a.buffStr) && buffBin == a.buffBin && dataLen == 0
      modifies this`buffStr, this`buffBin, this`dataLen
      ensures var s := Frame(a, hndCmd.Keys, hndEvt.Keys);
        State() == s.next && again == s.again
    {
      if |data| < 3 {
        buffStr := data;
        return false;
      }
      var hdrLen := 0;
      if StartsWith(data, "<01") {
        hdrLen := 9;
      } else if StartsWith(data, ">04") {
        hdrLen := 7;
      } else {
        buffStr := data[1..];
        return true;
      }
      if |data| < hdrLen {
        buffStr := data;
        return false;
      }
      var header := data[1..hdrLen];
      match FirstMarker(header) {
        case Some(k) =>
          buffStr := data[k + 1..];
          return true;
        case None =>
      }
      var handle := false;
      if StartsWith(data, "<01") {
        var opcode := ToUpper(Substr(data, 3, 4));
        handle := opcode in hndCmd || AnyOpcode in hndCmd;
      } else if StartsWith(data, ">04") {
        var code := ToUpper(Substr(data, 3, 2));
        handle := code in hndEvt || AnyCode in hndEvt;
      }
      buffStr := data[hdrLen..];
      if !handle {
        return true;
      }
      buffBin := [if data[0] == '<' then CommandMarkerByte else EventMarkerByte] + DecodeOrEmpty(header);
      dataLen := 2 * HexDec(header[|header| - 2..]);
      return true;
    }

    /**
     * `_onStdOut($data)` (lines 193-328): the chunk is cleaned and
     * appended, then invocations run until one does not end by calling
     * `_onStdOut('')` (the self-call becomes the loop; each pass makes
     * `Measure` smaller). The buffer ends as `Feed` says and the listeners
     * are called for every packet completed, in order.
     */
    method OnStdOut(chunk: string)
      requires Valid()
      modifies this`buffStr, this`buffBin, this`dataLen, this`deliveries
      ensures Valid()
      ensures var f := Feed(old(State()), chunk, hndCmd.Keys, hndEvt.Keys);
        && State() == f.final
        && deliveries == old(deliveries) + DispatchAll(f.packets, hndCmd, cbCmd, hndEvt, cbEvt)
    {
      ghost var ck, ek := hndCmd.Keys, hndEvt.Keys;
      ghost var f := Feed(State(), chunk, ck, ek);
      ghost var start := deliveries;
      AppendPreservesValid(State(), chunk);
      buffStr := buffStr + Sanitize(chunk);
      var again := true;
      while again
        invariant Stream.Valid(State())
        invariant again ==> (Drain(State(), ck, ek).final == f.final
          && start + DispatchAll(f.packets, hndCmd, cbCmd, hndEvt, cbEvt)
             == deliveries + DispatchAll(Drain(State(), ck, ek).packets, hndCmd, cbCmd, hndEvt, cbEvt))
        invariant !again ==> (State() == f.final
          && deliveries == start + DispatchAll(f.packets, hndCmd, cbCmd, hndEvt, cbEvt))
        decreases if again then Measure(State()) + 1 else 0
      {
        ghost var a := State();
        ghost var prior := deliveries;
        ghost var s := Step(a, ck, ek);
        DrainStep(a, ck, ek);
        StepPreservesValid(a, ck, ek);
        DispatchAllCons(s.packet, if s.again then Drain(s.next, ck, ek).packets else [], hndCmd, cbCmd, hndEvt, cbEvt);
        again := StepOnce();
        ConcatAssociative(prior, DispatchOpt(s.packet, hndCmd, cbCmd, hndEvt, cbEvt),
                          if s.again then DispatchAll(Drain(s.next, ck, ek).packets, hndCmd, cbCmd, hndEvt, cbEvt) else []);
        if !s.again {
          assert PacketsOf(s.packet) + [] == PacketsOf(s.packet);
        }
      }
    }
  }
}
