/**
 * The framing state machine of `HCIDump::_onStdOut` (src/HCIDump.php), as
 * functions over values. The text of `hcidump -R` carries H4 packets
 * (Bluetooth Core Specification v5.4, Vol 4, Part A, section 2): a command
 * starts with indicator 0x01 and the header of Vol 4, Part E, section 5.4.1
 * (opcode, little-endian, then a length byte); an event starts with 0x04 and
 * the header of section 5.4.4 (event code, then a length byte). The dump
 * writes `<` before a command and `>` before an event, then the bytes in hex.
 *
 * `Step` is one invocation of `_onStdOut` on the buffered text; `again`
 * says whether that invocation ends by calling `_onStdOut('')`, and
 * `packet` is the binary buffer it hands to `_handlePacket`, if any.
 * `Drain` runs steps until one does not recurse.
 */
module Stream {
  import opened Wrappers
  import opened Text

  /** The three fields `_buffstr`, `_buffbin` and `_datalen` (hex characters still wanted). */
  datatype Assembly = Assembly(buffStr: string, buffBin: seq<byte>, dataLen: nat)

  datatype StepResult = StepResult(next: Assembly, again: bool, packet: Option<seq<byte>>)

  datatype Drained = Drained(final: Assembly, packets: seq<seq<byte>>)

  predicate IsMarker(c: char) {
    c == '<' || c == '>'
  }

  /** The characters `_onStdOut` keeps: `[0-9A-Fa-f<>]`. */
  predicate IsAllowed(c: char) {
    IsHexDigit(c) || IsMarker(c)
  }

  predicate AllAllowed(s: string) {
    forall i :: 0 <= i < |s| ==> IsAllowed(s[i])
  }

  predicate NoMarker(s: string) {
    forall i :: 0 <= i < |s| ==> !IsMarker(s[i])
  }

  /** The binary marker byte `$data[0]` puts in front of a header. */
  const CommandMarkerByte: byte := 0x3C
  const EventMarkerByte: byte := 0x3E

  /** Line 195: every character outside `[0-9A-Fa-f<>]` removed, the rest kept in order. */
  function Sanitize(s: string): (r: string)
    ensures AllAllowed(r)
    ensures |r| <= |s|
  {
    if |s| == 0 then "" else (if IsAllowed(s[0]) then [s[0]] else []) + Sanitize(s[1..])
  }

  /** Sanitizing text that is already clean changes nothing. */
  lemma {:induction false} SanitizeClean(s: string)
    requires AllAllowed(s)
    ensures Sanitize(s) == s
  {
    if |s| > 0 {
      SanitizeClean(s[1..]);
    }
  }

  /** Sanitizing is per character, so it does not depend on where a chunk is cut. */
  lemma {:induction false} SanitizeConcat(a: string, b: string)
    ensures Sanitize(a + b) == Sanitize(a) + Sanitize(b)
  {
    if |a| > 0 {
      assert (a + b)[1..] == a[1..] + b;
      SanitizeConcat(a[1..], b);
    } else {
      assert a + b == b;
    }
  }

  /** Lines 207 and 288: the offset of the first `<` or `>`, if any. */
  function FirstMarker(s: string): (r: Option<nat>)
    ensures r.Some? ==> r.value < |s| && IsMarker(s[r.value]) && NoMarker(s[..r.value])
    ensures r.None? <==> NoMarker(s)
  {
    if |s| == 0 then None
    else if IsMarker(s[0]) then Some(0)
    else
      match FirstMarker(s[1..])
      case None => None
      case Some(k) => Some(k + 1)
  }

  /** Lines 207-212: the text from the first marker on, or `''` when there is none. */
  function FromMarker(s: string): (r: string)
    ensures r == "" || IsMarker(r[0])
    ensures |r| <= |s|
  {
    match FirstMarker(s)
    case None => ""
    case Some(m) => s[m..]
  }

  /** Lines 207-212: the text before the first marker, all of it when there is none. */
  function BeforeMarker(s: string): (r: string)
    ensures NoMarker(r)
    ensures r + FromMarker(s) == s
  {
    match FirstMarker(s)
    case None => s
    case Some(m) => s[..m]
  }

  /**
   * Lines 265-278: the header length, marker included, that the two
   * characters after the marker announce; 0 when they are neither `<01` nor
   * `>04`.
   */
  function HeaderLength(data: string): (n: nat)
    ensures n == 9 <==> StartsWith(data, "<01")
    ensures n == 7 <==> StartsWith(data, ">04")
    ensures n == 0 <==> !StartsWith(data, "<01") && !StartsWith(data, ">04")
  {
    if StartsWith(data, "<01") then 9 else if StartsWith(data, ">04") then 7 else 0
  }

  /** Lines 295-305: a handler is installed for the header's opcode or code, or for the wildcard. */
  predicate Handled(data: string, cmdKeys: set<string>, evtKeys: set<string>) {
    if StartsWith(data, "<01") then ToUpper(Substr(data, 3, 4)) in cmdKeys || "0000" in cmdKeys
    else if StartsWith(data, ">04") then ToUpper(Substr(data, 3, 2)) in evtKeys || "00" in evtKeys
    else false
  }

  /** `$blen % 2 ? $blen - 1 : $blen` */
  function EvenFloor(n: nat): (r: nat)
    ensures r % 2 == 0 && r <= n && n - r <= 1
  {
    if n % 2 == 1 then n - 1 else n
  }

  function DecodeOrEmpty(s: string): seq<byte> {
    Hex2Bin(s).GetOr([])
  }

  /** The termination measure of the recursion: buffered text, and whether a packet is in progress. */
  function Measure(a: Assembly): nat {
    2 * |a.buffStr| + (if a.dataLen > 0 then 1 else 0)
  }

  /**
   * One invocation of `_onStdOut` after the new chunk has been appended
   * (lines 199-327), given the keys of the command and event handler maps.
   * Whenever it recurses it has made the text shorter or ended a packet.
   */
  function Step(a: Assembly, cmdKeys: set<string>, evtKeys: set<string>): (r: StepResult)
    ensures r.again ==> Measure(r.next) < Measure(a)
  {
    if |a.buffStr| == 0 then StepResult(a, false, None)
    else if a.dataLen > 0 then Continue(a)
    else Frame(a, cmdKeys, evtKeys)
  }

  /** Lines 214-247 and 323-326: a packet is in progress. */
  function Continue(a: Assembly): (r: StepResult)
    requires a.dataLen > 0
    ensures r.again ==> |r.next.buffStr| <= |a.buffStr| && r.next.dataLen == 0
  {
    var data := FromMarker(a.buffStr);
    var before := BeforeMarker(a.buffStr);
    if |data| > 0 && |before| < a.dataLen then
      // the next packet starts before this one is complete: drop it
      StepResult(Assembly(data, [], 0), true, None)
    else
      var n := EvenFloor(Min(|before|, a.dataLen));
      if n == 0 then StepResult(Assembly(before, a.buffBin, a.dataLen), false, None)
      else
        var bin := a.buffBin + DecodeOrEmpty(before[..n]);
        if a.dataLen - n > 0 then StepResult(Assembly(before[n..], bin, a.dataLen - n), false, None)
        else if |data| > 0 then StepResult(Assembly(data, [], 0), true, Some(bin))
        else StepResult(Assembly("", [], 0), false, Some(bin))
  }

  /** Lines 248-321: no packet is in progress; look for a header at the first marker. */
  function Frame(a: Assembly, cmdKeys: set<string>, evtKeys: set<string>): (r: StepResult)
    requires |a.buffStr| > 0
    ensures r.again ==> |r.next.buffStr| < |a.buffStr|
    ensures r.packet.None?
  {
    var data := FromMarker(a.buffStr);
    if |data| < 3 then StepResult(Assembly(data, a.buffBin, 0), false, None)
    else
      var hdrLen := HeaderLength(data);
      if hdrLen == 0 then StepResult(Assembly(data[1..], a.buffBin, 0), true, None)
      else if |data| < hdrLen then StepResult(Assembly(data, a.buffBin, 0), false, None)
      else Header(data, hdrLen, a.buffBin, cmdKeys, evtKeys)
  }

  /** Lines 286-321: a whole header of a known packet type is at the front of `data`. */
  function Header(data: string, hdrLen: nat, bin: seq<byte>, cmdKeys: set<string>, evtKeys: set<string>): (r: StepResult)
    requires hdrLen == HeaderLength(data) > 0 && hdrLen <= |data|
    ensures r.again && r.packet.None? && |r.next.buffStr| < |data|
  {
    var header := data[1..hdrLen];
    match FirstMarker(header)
    case Some(k) => StepResult(Assembly(data[k + 1..], bin, 0), true, None)
    case None =>
      if !Handled(data, cmdKeys, evtKeys) then StepResult(Assembly(data[hdrLen..], bin, 0), true, None)
      else
        var marker := if data[0] == '<' then CommandMarkerByte else EventMarkerByte;
        StepResult(Assembly(data[hdrLen..], [marker] + DecodeOrEmpty(header), 2 * HexDec(header[|header| - 2..])), true, None)
  }

  /** The packets one step hands to `_handlePacket`: none or one. */
  function PacketsOf(o: Option<seq<byte>>): (r: seq<seq<byte>>)
    ensures o.None? ==> r == []
    ensures o.Some? ==> r == [o.value]
  {
    if o.Some? then [o.value] else []
  }

  /** `_onStdOut` with its recursion unrolled: steps until one does not recurse. */
  function Drain(a: Assembly, cmdKeys: set<string>, evtKeys: set<string>): (r: Drained)
    decreases Measure(a)
  {
    var s := Step(a, cmdKeys, evtKeys);
    var out := PacketsOf(s.packet);
    if s.again then
      var d := Drain(s.next, cmdKeys, evtKeys);
      Drained(d.final, out + d.packets)
    else Drained(s.next, out)
  }

  /** One step of the drain: the packet of the step, then those of the rest when it recurses. */
  lemma DrainStep(a: Assembly, cmdKeys: set<string>, evtKeys: set<string>)
    ensures var s := Step(a, cmdKeys, evtKeys);
      && (s.again ==> Drain(a, cmdKeys, evtKeys)
                       == Drained(Drain(s.next, cmdKeys, evtKeys).final, PacketsOf(s.packet) + Drain(s.next, cmdKeys, evtKeys).packets))
      && (!s.again ==> Drain(a, cmdKeys, evtKeys) == Drained(s.next, PacketsOf(s.packet)))
  {
  }

  /** `_onStdOut($chunk)`: the chunk is cleaned and appended, then the buffer is drained. */
  function Feed(a: Assembly, chunk: string, cmdKeys: set<string>, evtKeys: set<string>): Drained {
    Drain(a.(buffStr := a.buffStr + Sanitize(chunk)), cmdKeys, evtKeys)
  }

  /**
   * The binary buffer while a packet is in progress: the marker, indicator
   * and header bytes, then `dataLen / 2` fewer payload bytes than the header's
   * length byte announces.
   */
  predicate PendingHeader(bin: seq<byte>, dataLen: nat) {
    || (|bin| >= 5 && bin[0] == CommandMarkerByte && bin[1] == 0x01 && |bin| - 5 + dataLen / 2 == bin[4])
    || (|bin| >= 4 && bin[0] == EventMarkerByte && bin[1] == 0x04 && |bin| - 4 + dataLen / 2 == bin[3])
  }

  /** The invariant of the three fields between invocations. */
  predicate Valid(a: Assembly) {
    && AllAllowed(a.buffStr)
    && a.dataLen % 2 == 0
    && (a.dataLen > 0 ==> PendingHeader(a.buffBin, a.dataLen))
  }

  /**
   * What `_handlePacket` is given: a command or event header and exactly as
   * many payload bytes as its length byte says, which is never zero.
   */
  predicate WellFormedPacket(p: seq<byte>) {
    || (|p| > 5 && p[0] == CommandMarkerByte && p[1] == 0x01 && |p| - 5 == p[4])
    || (|p| > 4 && p[0] == EventMarkerByte && p[1] == 0x04 && |p| - 4 == p[3])
  }

  // ---------------------------------------------------------------------
  // The invariant of the three fields

  lemma CleanIsHex(s: string)
    requires AllAllowed(s) && NoMarker(s)
    ensures IsHexText(s)
  {
  }

  /** A marker is where `FirstMarker` puts the split, so both sides stay clean. */
  lemma SplitClean(s: string, m: nat)
    requires AllAllowed(s) && m <= |s|
    ensures AllAllowed(s[..m]) && AllAllowed(s[m..])
  {
    assert forall i :: 0 <= i < m ==> s[..m][i] == s[i];
    assert forall i :: 0 <= i < |s| - m ==> s[m..][i] == s[m + i];
  }

  /** The bytes lines 317-318 build from a header that was accepted. */
  lemma AcceptedHeader(data: string, hdrLen: nat)
    requires AllAllowed(data) && hdrLen == HeaderLength(data) > 0 && |data| >= hdrLen
    requires NoMarker(data[1..hdrLen])
    ensures var header := data[1..hdrLen];
      var marker := if data[0] == '<' then CommandMarkerByte else EventMarkerByte;
      var bin := [marker] + DecodeOrEmpty(header);
      var len := 2 * HexDec(header[|header| - 2..]);
      && Hex2Bin(header).Some?
      && |bin| == (if hdrLen == 9 then 5 else 4)
      && bin[|bin| - 1] == len / 2
      && PendingHeader(bin, len)
  {
    var header := data[1..hdrLen];
    assert forall i :: 0 <= i < |header| ==> header[i] == data[1 + i];
    CleanIsHex(header);
    var b := Hex2Bin(header).value;
    var marker := if data[0] == '<' then CommandMarkerByte else EventMarkerByte;
    var bin := [marker] + b;
    assert data[0] == data[..3][0] && data[1] == data[..3][1] && data[2] == data[..3][2];
    Hex2BinAt(header, 0);
    Hex2BinAt(header, |header| / 2 - 1);
    var last := header[|header| - 2..];
    HexDecOfByteHex(last);
    assert last[0] == header[|header| - 2] && last[1] == header[|header| - 1];
    assert bin[1] == b[0] && bin[|bin| - 1] == b[|b| - 1];
  }

  /** Lines 225-232: the payload characters consumed are hex and decode to half as many bytes. */
  lemma ConsumedPayload(before: string, n: nat)
    requires AllAllowed(before) && NoMarker(before) && n <= |before| && n % 2 == 0
    ensures Hex2Bin(before[..n]).Some? && |DecodeOrEmpty(before[..n])| == n / 2
    ensures AllAllowed(before[n..])
  {
    assert forall i :: 0 <= i < n ==> before[..n][i] == before[i];
    assert forall i :: 0 <= i < |before| - n ==> before[n..][i] == before[n + i];
    CleanIsHex(before[..n]);
  }

  /** Both sides of the split at the first marker are clean when the buffer is. */
  lemma SplitAtMarkerClean(s: string)
    requires AllAllowed(s)
    ensures AllAllowed(BeforeMarker(s)) && AllAllowed(FromMarker(s))
  {
    var before := BeforeMarker(s);
    var data := FromMarker(s);
    assert forall i :: 0 <= i < |before| ==> before[i] == s[i];
    assert forall i :: 0 <= i < |data| ==> data[i] == s[|before| + i];
  }

  /** Lines 214-247: the invariant across an invocation with a packet in progress. */
  lemma ContinuationPreservesValid(a: Assembly, cmdKeys: set<string>, evtKeys: set<string>)
    requires Valid(a) && a.dataLen > 0
    ensures Valid(Step(a, cmdKeys, evtKeys).next)
    ensures Step(a, cmdKeys, evtKeys).packet.Some? ==> WellFormedPacket(Step(a, cmdKeys, evtKeys).packet.value)
  {
    if |a.buffStr| > 0 {
      SplitAtMarkerClean(a.buffStr);
      var data := FromMarker(a.buffStr);
      var before := BeforeMarker(a.buffStr);
      if !(|data| > 0 && |before| < a.dataLen) {
        var n := EvenFloor(Min(|before|, a.dataLen));
        if n > 0 {
          ConsumedPayload(before, n);
          PendingAfter(a.buffBin, a.dataLen, n, DecodeOrEmpty(before[..n]));
        }
      }
    }
  }

  /** `n` more payload characters, `n/2` bytes, leave the rest pending or complete the packet. */
  lemma PendingAfter(bin: seq<byte>, dataLen: nat, n: nat, added: seq<byte>)
    requires PendingHeader(bin, dataLen) && dataLen % 2 == 0
    requires 0 < n <= dataLen && n % 2 == 0 && |added| == n / 2
    ensures dataLen - n > 0 ==> PendingHeader(bin + added, dataLen - n)
    ensures dataLen - n == 0 ==> WellFormedPacket(bin + added)
  {
    var b := bin + added;
    assert b[..|bin|] == bin;
    assert (dataLen - n) / 2 + n / 2 == dataLen / 2;
  }

  /** Lines 286-321: the invariant across a whole header. */
  lemma HeaderValid(data: string, hdrLen: nat, bin: seq<byte>, cmdKeys: set<string>, evtKeys: set<string>)
    requires AllAllowed(data) && hdrLen == HeaderLength(data) > 0 && hdrLen <= |data|
    ensures Valid(Header(data, hdrLen, bin, cmdKeys, evtKeys).next)
  {
    var header := data[1..hdrLen];
    match FirstMarker(header)
    case Some(k) =>
      SplitClean(data, k + 1);
    case None =>
      SplitClean(data, hdrLen);
      if Handled(data, cmdKeys, evtKeys) {
        AcceptedValid(data, hdrLen);
      }
  }

  /** The state a known, listened-to header leaves: its bytes so far, and twice its length byte still to come. */
  lemma AcceptedValid(data: string, hdrLen: nat)
    requires AllAllowed(data) && hdrLen == HeaderLength(data) > 0 && |data| >= hdrLen
    requires NoMarker(data[1..hdrLen])
    ensures var header := data[1..hdrLen];
      var marker := if data[0] == '<' then CommandMarkerByte else EventMarkerByte;
      Valid(Assembly(data[hdrLen..], [marker] + DecodeOrEmpty(header), 2 * HexDec(header[|header| - 2..])))
  {
    SplitClean(data, hdrLen);
    AcceptedHeader(data, hdrLen);
  }

  /** Lines 249-321: the invariant across an invocation with no packet in progress. */
  lemma HeaderPreservesValid(a: Assembly, cmdKeys: set<string>, evtKeys: set<string>)
    requires Valid(a) && a.dataLen == 0
    ensures Valid(Step(a, cmdKeys, evtKeys).next)
    ensures Step(a, cmdKeys, evtKeys).packet.None?
  {
    if |a.buffStr| > 0 {
      SplitAtMarkerClean(a.buffStr);
      var data := FromMarker(a.buffStr);
      if |data| >= 3 {
        SplitClean(data, 1);
        var hdrLen := HeaderLength(data);
        if hdrLen > 0 && |data| >= hdrLen {
          HeaderValid(data, hdrLen, a.buffBin, cmdKeys, evtKeys);
        }
      }
    }
  }

  /**
   * Every invocation keeps the invariant: the buffer holds only clean
   * characters, `_datalen` is even, and while it is positive the binary
   * buffer holds a header whose length byte accounts for the bytes still
   * wanted. Every packet handed on is well formed, with a non-zero length.
   */
  lemma StepPreservesValid(a: Assembly, cmdKeys: set<string>, evtKeys: set<string>)
    requires Valid(a)
    ensures Valid(Step(a, cmdKeys, evtKeys).next)
    ensures Step(a, cmdKeys, evtKeys).packet.Some? ==> WellFormedPacket(Step(a, cmdKeys, evtKeys).packet.value)
  {
    if a.dataLen > 0 {
      ContinuationPreservesValid(a, cmdKeys, evtKeys);
    } else {
      HeaderPreservesValid(a, cmdKeys, evtKeys);
    }
  }

  /** Across a whole invocation, recursion included, the invariant holds and every packet is well formed. */
  lemma {:induction false} DrainPreservesValid(a: Assembly, cmdKeys: set<string>, evtKeys: set<string>)
    requires Valid(a)
    ensures Valid(Drain(a, cmdKeys, evtKeys).final)
    ensures forall p :: p in Drain(a, cmdKeys, evtKeys).packets ==> WellFormedPacket(p)
    decreases Measure(a)
  {
    var s := Step(a, cmdKeys, evtKeys);
    StepPreservesValid(a, cmdKeys, evtKeys);
    if s.again {
      DrainPreservesValid(s.next, cmdKeys, evtKeys);
    }
  }

  /** Appending a cleaned chunk keeps the invariant. */
  lemma AppendPreservesValid(a: Assembly, chunk: string)
    requires Valid(a)
    ensures Valid(a.(buffStr := a.buffStr + Sanitize(chunk)))
  {
    var c := Sanitize(chunk);
    assert forall i :: 0 <= i < |c| ==> (a.buffStr + c)[|a.buffStr| + i] == c[i];
  }

  /** Feeding nothing is draining what is buffered, as the recursive `_onStdOut('')` does. */
  lemma FeedNothing(a: Assembly, cmdKeys: set<string>, evtKeys: set<string>)
    ensures Feed(a, "", cmdKeys, evtKeys) == Drain(a, cmdKeys, evtKeys)
  {
    assert a.(buffStr := a.buffStr + Sanitize("")) == a;
  }

  /** `_onStdOut($chunk)` keeps the invariant, whatever the chunk holds. */
  lemma FeedPreservesValid(a: Assembly, chunk: string, cmdKeys: set<string>, evtKeys: set<string>)
    requires Valid(a)
    ensures Valid(Feed(a, chunk, cmdKeys, evtKeys).final)
    ensures forall p :: p in Feed(a, chunk, cmdKeys, evtKeys).packets ==> WellFormedPacket(p)
  {
    AppendPreservesValid(a, chunk);
    DrainPreservesValid(a.(buffStr := a.buffStr + Sanitize(chunk)), cmdKeys, evtKeys);
  }

  /** Only characters in `[0-9A-Fa-f<>]` reach the buffer: cleaning changes exactly the unclean texts. */
  lemma {:induction false} SanitizeExactlyClean(s: string)
    ensures Sanitize(s) == s <==> AllAllowed(s)
  {
    if AllAllowed(s) {
      SanitizeClean(s);
    }
  }

  // ---------------------------------------------------------------------
  // Waiting for more input

  /** A state `Step` leaves alone: no recursion, no packet, no change. */
  predicate AtRest(a: Assembly, cmdKeys: set<string>, evtKeys: set<string>) {
    Step(a, cmdKeys, evtKeys) == StepResult(a, false, None)
  }

  /**
   * An invocation that does not recurse leaves text that is waiting for
   * more input: invoking again on it changes nothing.
   */
  lemma StopIsAtRest(a: Assembly, cmdKeys: set<string>, evtKeys: set<string>)
    requires Valid(a) && !Step(a, cmdKeys, evtKeys).again
    ensures AtRest(Step(a, cmdKeys, evtKeys).next, cmdKeys, evtKeys)
  {
    if |a.buffStr| > 0 {
      if a.dataLen > 0 {
        ContinueStopIsAtRest(a, cmdKeys, evtKeys);
      } else {
        FrameStopIsAtRest(a, cmdKeys, evtKeys);
      }
    }
  }

  /** A packet in progress that waits for more: what is left has no marker and is shorter than two characters or the count. */
  lemma ContinueStopIsAtRest(a: Assembly, cmdKeys: set<string>, evtKeys: set<string>)
    requires Valid(a) && a.dataLen > 0 && |a.buffStr| > 0 && !Continue(a).again
    ensures AtRest(Continue(a).next, cmdKeys, evtKeys)
  {
    var next := Continue(a).next;
    var before := BeforeMarker(a.buffStr);
    if |next.buffStr| > 0 && next != a {
      var n := EvenFloor(Min(|before|, a.dataLen));
      assert next.buffStr == before[n..] && |before| - n <= 1;
      assert BeforeMarker(next.buffStr) == next.buffStr by {
        assert NoMarker(next.buffStr) by {
          assert forall i :: 0 <= i < |next.buffStr| ==> next.buffStr[i] == before[n + i];
        }
      }
    }
  }

  /** No packet in progress and nothing more to do: what is left starts at a marker and is waiting for the rest of its header. */
  lemma FrameStopIsAtRest(a: Assembly, cmdKeys: set<string>, evtKeys: set<string>)
    requires Valid(a) && a.dataLen == 0 && |a.buffStr| > 0 && !Frame(a, cmdKeys, evtKeys).again
    ensures AtRest(Frame(a, cmdKeys, evtKeys).next, cmdKeys, evtKeys)
  {
    var next := Frame(a, cmdKeys, evtKeys).next;
    if |next.buffStr| > 0 {
      var data := FromMarker(a.buffStr);
      assert next.buffStr == data;
      assert FromMarker(data) == data;
    }
  }

  /** `_onStdOut` returns only once the buffered text is waiting for more input. */
  lemma {:induction false} DrainEndsAtRest(a: Assembly, cmdKeys: set<string>, evtKeys: set<string>)
    requires Valid(a)
    ensures AtRest(Drain(a, cmdKeys, evtKeys).final, cmdKeys, evtKeys)
    decreases Measure(a)
  {
    var s := Step(a, cmdKeys, evtKeys);
    StepPreservesValid(a, cmdKeys, evtKeys);
    if s.again {
      DrainEndsAtRest(s.next, cmdKeys, evtKeys);
    } else {
      StopIsAtRest(a, cmdKeys, evtKeys);
    }
  }

  /** After `_onStdOut` returns, `_onStdOut('')` does nothing further. */
  lemma FeedEmptyAfterFeed(a: Assembly, chunk: string, cmdKeys: set<string>, evtKeys: set<string>)
    requires Valid(a)
    ensures var f := Feed(a, chunk, cmdKeys, evtKeys).final;
      Feed(f, "", cmdKeys, evtKeys) == Drained(f, [])
  {
    FeedPreservesValid(a, chunk, cmdKeys, evtKeys);
    var b := a.(buffStr := a.buffStr + Sanitize(chunk));
    assert AllAllowed(b.buffStr) by {
      var c := Sanitize(chunk);
      assert forall i :: 0 <= i < |c| ==> b.buffStr[|a.buffStr| + i] == c[i];
    }
    DrainEndsAtRest(b, cmdKeys, evtKeys);
    var f := Feed(a, chunk, cmdKeys, evtKeys).final;
    assert f.(buffStr := f.buffStr + Sanitize("")) == f;
  }

  // ---------------------------------------------------------------------
  // Junk, headers and continuation, invocation by invocation

  lemma {:induction false} FirstMarkerAfterJunk(j: string, t: string)
    requires NoMarker(j)
    ensures FirstMarker(t).None? ==> FirstMarker(j + t).None?
    ensures FirstMarker(t).Some? ==> FirstMarker(j + t) == Some(|j| + FirstMarker(t).value)
    decreases |j|
  {
    if |j| > 0 {
      assert (j + t)[0] == j[0] && (j + t)[1..] == j[1..] + t;
      FirstMarkerAfterJunk(j[1..], t);
    } else {
      assert j + t == t;
    }
  }

  /**
   * Lines 207-212 and 249-262: with no packet in progress, text before the
   * first marker is junk; dropping it changes neither the invocation nor
   * anything after it.
   */
  lemma JunkIgnored(junk: string, t: string, bin: seq<byte>, cmdKeys: set<string>, evtKeys: set<string>)
    requires NoMarker(junk) && (t == "" || IsMarker(t[0]))
    ensures Step(Assembly(junk + t, bin, 0), cmdKeys, evtKeys) == Step(Assembly(t, bin, 0), cmdKeys, evtKeys)
    ensures Drain(Assembly(junk + t, bin, 0), cmdKeys, evtKeys) == Drain(Assembly(t, bin, 0), cmdKeys, evtKeys)
  {
    FirstMarkerAfterJunk(junk, t);
    if t == "" {
      assert junk + t == junk;
    } else {
      assert (junk + t)[|junk|..] == t;
    }
  }

  /** Lines 258-262: fewer than 3 characters from the first marker on are kept for the next chunk. */
  lemma ShortMarkerKept(a: Assembly, cmdKeys: set<string>, evtKeys: set<string>)
    requires a.dataLen == 0 && FirstMarker(a.buffStr).Some?
    requires |FromMarker(a.buffStr)| < 3
    ensures Step(a, cmdKeys, evtKeys) == StepResult(Assembly(FromMarker(a.buffStr), a.buffBin, 0), false, None)
    ensures AtRest(Step(a, cmdKeys, evtKeys).next, cmdKeys, evtKeys)
  {
    var data := FromMarker(a.buffStr);
    assert FromMarker(data) == data;
  }

  /** Lines 267-278: a marker followed by anything but `01`/`04` (as `<01`/`>04`) loses only the marker. */
  lemma UnknownIndicatorSkipped(a: Assembly, cmdKeys: set<string>, evtKeys: set<string>)
    requires a.dataLen == 0
    requires var data := FromMarker(a.buffStr); |data| >= 3 && !StartsWith(data, "<01") && !StartsWith(data, ">04")
    ensures Step(a, cmdKeys, evtKeys) == StepResult(Assembly(FromMarker(a.buffStr)[1..], a.buffBin, 0), true, None)
  {
  }

  /** Lines 280-284: a recognised header still short of its 9 or 7 characters is kept. */
  lemma PartialHeaderKept(a: Assembly, cmdKeys: set<string>, evtKeys: set<string>)
    requires a.dataLen == 0
    requires var data := FromMarker(a.buffStr); |data| >= 3 && 0 < HeaderLength(data) && |data| < HeaderLength(data)
    ensures Step(a, cmdKeys, evtKeys) == StepResult(Assembly(FromMarker(a.buffStr), a.buffBin, 0), false, None)
    ensures AtRest(Step(a, cmdKeys, evtKeys).next, cmdKeys, evtKeys)
  {
    var data := FromMarker(a.buffStr);
    assert FromMarker(data) == data;
  }

  /** Lines 286-293: a marker inside the header region restarts framing at that inner marker. */
  lemma InnerMarkerRestarts(a: Assembly, cmdKeys: set<string>, evtKeys: set<string>)
    requires a.dataLen == 0
    requires var data := FromMarker(a.buffStr);
      |data| >= 3 && 0 < HeaderLength(data) <= |data| && !NoMarker(data[1..HeaderLength(data)])
    ensures var data := FromMarker(a.buffStr);
      var r := Step(a, cmdKeys, evtKeys);
      && r.again && r.packet.None? && r.next.dataLen == 0
      && exists k :: 1 <= k < HeaderLength(data) && r.next.buffStr == data[k..] && IsMarker(data[k]) && NoMarker(data[1..k])
  {
    var data := FromMarker(a.buffStr);
    StepAtHeader(a, cmdKeys, evtKeys);
    HeaderInnerMarker(data, HeaderLength(data), a.buffBin, cmdKeys, evtKeys);
  }

  /** The header's part of the restart: the new buffer starts at the first inner marker. */
  lemma HeaderInnerMarker(data: string, hdrLen: nat, bin: seq<byte>, cmdKeys: set<string>, evtKeys: set<string>)
    requires hdrLen == HeaderLength(data) > 0 && hdrLen <= |data| && !NoMarker(data[1..hdrLen])
    ensures var r := Header(data, hdrLen, bin, cmdKeys, evtKeys);
      var k := FirstMarker(data[1..hdrLen]).value + 1;
      && r == StepResult(Assembly(data[k..], bin, 0), true, None)
      && 1 <= k < hdrLen && IsMarker(data[k]) && NoMarker(data[1..k])
  {
    var header := data[1..hdrLen];
    var k := FirstMarker(header).value;
    assert header[k] == data[k + 1];
    assert data[1..k + 1] == header[..k];
  }

  /** Lines 295-312: a header nobody handles is consumed and no packet starts. */
  lemma UnhandledHeaderSkipped(a: Assembly, cmdKeys: set<string>, evtKeys: set<string>)
    requires a.dataLen == 0
    requires var data := FromMarker(a.buffStr);
      && |data| >= 3 && 0 < HeaderLength(data) <= |data| && NoMarker(data[1..HeaderLength(data)])
      && !Handled(data, cmdKeys, evtKeys)
    ensures var data := FromMarker(a.buffStr);
      Step(a, cmdKeys, evtKeys) == StepResult(Assembly(data[HeaderLength(data)..], a.buffBin, 0), true, None)
  {
  }

  /** With no packet in progress, an invocation that reaches a whole known header is decided by that header. */
  lemma StepAtHeader(a: Assembly, cmdKeys: set<string>, evtKeys: set<string>)
    requires a.dataLen == 0
    requires var data := FromMarker(a.buffStr); |data| >= 3 && 0 < HeaderLength(data) <= |data|
    ensures var data := FromMarker(a.buffStr);
      Step(a, cmdKeys, evtKeys) == Header(data, HeaderLength(data), a.buffBin, cmdKeys, evtKeys)
  {
  }

  /**
   * Lines 314-319: a handled header starts a packet. The binary buffer is the
   * marker and the decoded header, and the count of hex characters still
   * wanted is twice the header's length byte, so it is even.
   */
  lemma HandledHeaderStartsPacket(data: string, hdrLen: nat, bin: seq<byte>, cmdKeys: set<string>, evtKeys: set<string>)
    requires AllAllowed(data) && hdrLen == HeaderLength(data) > 0 && hdrLen <= |data|
    requires NoMarker(data[1..hdrLen]) && Handled(data, cmdKeys, evtKeys)
    ensures var r := Header(data, hdrLen, bin, cmdKeys, evtKeys);
      && Hex2Bin(data[1..hdrLen]).Some?
      && r.again && r.packet.None?
      && r.next.buffStr == data[hdrLen..]
      && r.next.buffBin == [if data[0] == '<' then CommandMarkerByte else EventMarkerByte] + Hex2Bin(data[1..hdrLen]).value
      && |r.next.buffBin| == (if hdrLen == 9 then 5 else 4)
      && r.next.dataLen == 2 * (r.next.buffBin[|r.next.buffBin| - 1] as int)
  {
    AcceptedHeader(data, hdrLen);
  }

  /**
   * Lines 214-238, no marker yet and the packet not complete: an even number
   * of the available characters is decoded and appended, `_datalen` drops by
   * exactly that number, and at most one character is left over.
   */
  lemma PayloadContinues(a: Assembly, cmdKeys: set<string>, evtKeys: set<string>)
    requires Valid(a) && a.dataLen > 0 && NoMarker(a.buffStr) && |a.buffStr| < a.dataLen
    ensures var n := EvenFloor(|a.buffStr|);
      && Hex2Bin(a.buffStr[..n]).Some?
      && Step(a, cmdKeys, evtKeys) == StepResult(Assembly(a.buffStr[n..], a.buffBin + Hex2Bin(a.buffStr[..n]).value, a.dataLen - n), false, None)
      && |a.buffStr[n..]| <= 1
  {
    var n := EvenFloor(|a.buffStr|);
    assert FirstMarker(a.buffStr).None?;
    ConsumedPayload(a.buffStr, n);
    if n == 0 {
      assert a.buffStr[0..] == a.buffStr;
    }
  }

  /**
   * Lines 214-247 and 323-326: once the text before the next marker (or all
   * of it) covers `_datalen`, the packet is complete and handed on; whatever
   * lies between its end and the next marker is discarded.
   */
  lemma PayloadCompletes(a: Assembly, cmdKeys: set<string>, evtKeys: set<string>)
    requires Valid(a) && a.dataLen > 0 && |BeforeMarker(a.buffStr)| >= a.dataLen
    ensures var before := BeforeMarker(a.buffStr);
      var data := FromMarker(a.buffStr);
      && Hex2Bin(before[..a.dataLen]).Some?
      && Step(a, cmdKeys, evtKeys) == StepResult(Assembly(data, [], 0), data != "", Some(a.buffBin + Hex2Bin(before[..a.dataLen]).value))
      && WellFormedPacket(a.buffBin + Hex2Bin(before[..a.dataLen]).value)
  {
    var before := BeforeMarker(a.buffStr);
    SplitAtMarkerClean(a.buffStr);
    ConsumedPayload(before, a.dataLen);
    StepPreservesValid(a, cmdKeys, evtKeys);
  }

  /** Lines 215-219 and 323-326: a marker before the packet is complete abandons it; framing restarts at the marker. */
  lemma PacketCutOff(a: Assembly, cmdKeys: set<string>, evtKeys: set<string>)
    requires a.dataLen > 0 && FirstMarker(a.buffStr).Some? && |BeforeMarker(a.buffStr)| < a.dataLen
    ensures Step(a, cmdKeys, evtKeys) == StepResult(Assembly(FromMarker(a.buffStr), [], 0), true, None)
  {
  }

  /**
   * Lines 214 and 318: a handled header whose length byte is 0 leaves no
   * packet in progress, and since `_handlePacket` is reached only from a
   * packet in progress (line 244), such a packet is never handed on.
   */
  lemma EmptyPayloadNeverHandled(a: Assembly, cmdKeys: set<string>, evtKeys: set<string>)
    requires Valid(a) && a.dataLen == 0
    requires var data := FromMarker(a.buffStr);
      && |data| >= 3 && 0 < HeaderLength(data) <= |data| && NoMarker(data[1..HeaderLength(data)])
      && Handled(data, cmdKeys, evtKeys)
      && data[HeaderLength(data) - 2..HeaderLength(data)] == "00"
    ensures Step(a, cmdKeys, evtKeys).next.dataLen == 0
    ensures forall p :: p in Drain(a, cmdKeys, evtKeys).packets ==> WellFormedPacket(p)
  {
    var data := FromMarker(a.buffStr);
    var hdrLen := HeaderLength(data);
    var header := data[1..hdrLen];
    assert header[|header| - 2..] == "00";
    HexDecOfByteHex("00");
    StepAtHeader(a, cmdKeys, evtKeys);
    DrainPreservesValid(a, cmdKeys, evtKeys);
  }

  // ---------------------------------------------------------------------
  // Whole packets

  /** A packet as `hcidump -R` prints it: the marker, then indicator, id, length and parameters in hex. */
  function Printed(marker: char, indicator: byte, id: seq<byte>, params: seq<byte>): string
    requires |params| < 256
  {
    [marker] + Bin2Hex([indicator] + id + [|params| as byte] + params)
  }

  /** An HCI command: `<`, indicator 0x01, the opcode as on the wire, the length and the parameters. */
  function CommandText(opcode: seq<byte>, params: seq<byte>): string
    requires |opcode| == 2 && |params| < 256
  {
    Printed('<', 0x01, opcode, params)
  }

  /** An HCI event: `>`, indicator 0x04, the event code, the length and the parameters. */
  function EventText(code: byte, params: seq<byte>): string
    requires |params| < 256
  {
    Printed('>', 0x04, [code], params)
  }

  lemma HexHasNoMarker(s: string)
    requires IsHexText(s)
    ensures NoMarker(s) && AllAllowed(s)
  {
  }

  /** Any spelling of the payload, upper or lower case, complete and alone in the buffer, ends the packet. */
  lemma WholePayload(p: string, params: seq<byte>, bin: seq<byte>, cmdKeys: set<string>, evtKeys: set<string>)
    requires |params| > 0 && ToLower(p) == Bin2Hex(params)
    ensures Drain(Assembly(p, bin, 2 * |params|), cmdKeys, evtKeys) == Drained(Assembly("", [], 0), [bin + params])
  {
    SpelledHex(p, params);
    HexHasNoMarker(p);
    assert FirstMarker(p).None?;
    assert p[..|p|] == p;
  }

  /** Where the pieces of a printed packet lie in its text. */
  lemma PrintedLayout(marker: char, indicator: byte, id: seq<byte>, params: seq<byte>)
    requires indicator < 16 && |params| < 256
    ensures var t := Printed(marker, indicator, id, params);
      var k := 3 + 2 * |id|;
      && |t| == k + 2 + 2 * |params|
      && t[..3] == [marker, '0', LowerHexDigit(indicator)]
      && IsLowerHexText(t[1..])
      && t[1..k + 2] == Bin2Hex([indicator] + id + [|params| as byte])
      && t[3..k] == Bin2Hex(id)
      && t[k..k + 2] == Bin2Hex([|params| as byte])
      && t[k + 2..] == Bin2Hex(params)
  {
    var len: byte := |params| as byte;
    var hb := [indicator] + id + [len];
    var t := Printed(marker, indicator, id, params);
    var h := Bin2Hex(hb);
    var i := Bin2Hex(id);
    var l := Bin2Hex([len]);
    var p := Bin2Hex(params);
    Bin2HexConcat(hb, params);
    Bin2HexConcat([indicator] + id, [len]);
    Bin2HexConcat([indicator], id);
    SmallByteHex(indicator);
    assert h == ['0', LowerHexDigit(indicator)] + i + l;
    assert t == [marker] + h + p;
    assert t[1..] == h + p;
    var k := 3 + 2 * |id|;
    assert t[1..k + 2] == h;
    assert t[3..k] == h[2..k - 1] == i;
    assert t[k..k + 2] == h[k - 1..k + 1] == l;
    assert t[k + 2..] == p;
  }

  /**
   * The same packet spelled in any mix of letter case (line 195 keeps `A-F`
   * as well as `a-f`): the marker and the indicator's two digits are as
   * printed, the rest is hex, the header reads back as its bytes, and the
   * id and the parameters are spelled as printed up to case.
   */
  lemma SpelledLayout(t: string, marker: char, indicator: byte, id: seq<byte>, params: seq<byte>)
    requires IsMarker(marker) && indicator < 10 && |params| < 256
    requires ToLower(t) == Printed(marker, indicator, id, params)
    ensures var k := 3 + 2 * |id|;
      && |t| == k + 2 + 2 * |params|
      && t[..3] == [marker, '0', LowerHexDigit(indicator)]
      && IsHexText(t[1..])
      && Hex2Bin(t[1..k + 2]) == Some([indicator] + id + [|params| as byte])
      && ToLower(t[3..k]) == Bin2Hex(id)
      && ToLower(t[k + 2..]) == Bin2Hex(params)
  {
    var pt := Printed(marker, indicator, id, params);
    var k := 3 + 2 * |id|;
    PrintedLayout(marker, indicator, id, params);
    forall i | 0 <= i < 3
      ensures t[i] == pt[i]
    {
      LowerCharKeeps(t[i]);
    }
    LowerSlice(t, 1, |t|);
    forall i | 1 <= i < |t|
      ensures IsHexDigit(t[i])
    {
      assert pt[i] == pt[1..][i - 1];
      LowerCharKeeps(t[i]);
    }
    LowerSlice(t, 1, k + 2);
    SpelledHex(t[1..k + 2], [indicator] + id + [|params| as byte]);
    LowerSlice(t, 3, k);
    LowerSlice(t, k + 2, |t|);
  }

  /** Hex text behind a marker is clean and starts at its marker. */
  lemma PrintedIsClean(t: string)
    requires |t| > 0 && IsMarker(t[0]) && IsHexText(t[1..])
    ensures AllAllowed(t) && FromMarker(t) == t
  {
    assert forall i :: 1 <= i < |t| ==> t[i] == t[1..][i - 1];
    HexHasNoMarker(t[1..]);
  }

  /** A header spelling `hb` that a handler wants: the packet starts with exactly those bytes. */
  lemma PrintedHeaderStarts(t: string, hb: seq<byte>, hdrLen: nat, bin: seq<byte>, cmdKeys: set<string>, evtKeys: set<string>)
    requires hdrLen == HeaderLength(t) > 0 && |t| >= hdrLen
    requires IsMarker(t[0]) && IsHexText(t[1..]) && Hex2Bin(t[1..hdrLen]) == Some(hb)
    requires Handled(t, cmdKeys, evtKeys)
    ensures Step(Assembly(t, bin, 0), cmdKeys, evtKeys)
         == StepResult(Assembly(t[hdrLen..], [if t[0] == '<' then CommandMarkerByte else EventMarkerByte] + hb, 2 * (hb[|hb| - 1] as int)), true, None)
  {
    var a := Assembly(t, bin, 0);
    PrintedIsClean(t);
    HexHasNoMarker(t[1..hdrLen]);
    StepAtHeader(a, cmdKeys, evtKeys);
    HandledHeaderStartsPacket(t, hdrLen, bin, cmdKeys, evtKeys);
  }

  /**
   * A command spelled in any letter case (`ToLower(t)` is its printed text),
   * after any junk and with a handler for its opcode or the wildcard, is
   * handed on as exactly one packet: the marker, indicator, opcode, length
   * and parameters, in binary.
   */
  lemma CommandFramed(junk: string, t: string, opcode: seq<byte>, params: seq<byte>, bin: seq<byte>, cmdKeys: set<string>, evtKeys: set<string>)
    requires NoMarker(junk) && |opcode| == 2 && 0 < |params| < 256
    requires ToLower(t) == CommandText(opcode, params)
    requires ToUpper(Bin2Hex(opcode)) in cmdKeys || "0000" in cmdKeys
    ensures Drain(Assembly(junk + t, bin, 0), cmdKeys, evtKeys)
         == Drained(Assembly("", [], 0), [[CommandMarkerByte, 0x01] + opcode + [|params| as byte] + params])
  {
    var hb := [0x01] + opcode + [|params| as byte];
    assert [CommandMarkerByte] + hb + params == [CommandMarkerByte, 0x01] + opcode + [|params| as byte] + params by {
      assert [CommandMarkerByte, 0x01] == [CommandMarkerByte] + [0x01];
    }
    var a := Assembly(t, bin, 0);
    CommandHeaderStep(t, opcode, params, bin, cmdKeys, evtKeys);
    QuietStep(a, cmdKeys, evtKeys);
    WholePayload(t[9..], params, [CommandMarkerByte] + hb, cmdKeys, evtKeys);
    JunkIgnored(junk, t, bin, cmdKeys, evtKeys);
  }

  /** A step that recurses without handing on a packet leaves the drain to the next invocation. */
  lemma QuietStep(a: Assembly, cmdKeys: set<string>, evtKeys: set<string>)
    requires Step(a, cmdKeys, evtKeys).again && Step(a, cmdKeys, evtKeys).packet.None?
    ensures Drain(a, cmdKeys, evtKeys) == Drain(Step(a, cmdKeys, evtKeys).next, cmdKeys, evtKeys)
  {
    DrainStep(a, cmdKeys, evtKeys);
  }

  /** The first step on a spelled command: its header starts a packet waiting for the parameters. */
  lemma CommandHeaderStep(t: string, opcode: seq<byte>, params: seq<byte>, bin: seq<byte>, cmdKeys: set<string>, evtKeys: set<string>)
    requires |opcode| == 2 && 0 < |params| < 256
    requires ToLower(t) == CommandText(opcode, params)
    requires ToUpper(Bin2Hex(opcode)) in cmdKeys || "0000" in cmdKeys
    ensures |t| == 9 + 2 * |params| && t[0] == '<' && ToLower(t[9..]) == Bin2Hex(params)
    ensures var hb := [0x01] + opcode + [|params| as byte];
      Step(Assembly(t, bin, 0), cmdKeys, evtKeys)
      == StepResult(Assembly(t[9..], [CommandMarkerByte] + hb, 2 * |params|), true, None)
  {
    var hb := [0x01] + opcode + [|params| as byte];
    SpelledLayout(t, '<', 0x01, opcode, params);
    assert t[..3] == "<01";
    assert Substr(t, 3, 4) == t[3..7];
    UpperOfLower(t[3..7]);
    PrintedHeaderStarts(t, hb, 9, bin, cmdKeys, evtKeys);
  }

  /**
   * An event spelled in any letter case (`ToLower(t)` is its printed text),
   * after any junk and with a handler for its code or the wildcard, is
   * handed on as exactly one packet: the marker, indicator, code, length and
   * parameters, in binary.
   */
  lemma EventFramed(junk: string, t: string, code: byte, params: seq<byte>, bin: seq<byte>, cmdKeys: set<string>, evtKeys: set<string>)
    requires NoMarker(junk) && 0 < |params| < 256
    requires ToLower(t) == EventText(code, params)
    requires ToUpper(Bin2Hex([code])) in evtKeys || "00" in evtKeys
    ensures Drain(Assembly(junk + t, bin, 0), cmdKeys, evtKeys)
         == Drained(Assembly("", [], 0), [[EventMarkerByte, 0x04, code, |params| as byte] + params])
  {
    var hb := [0x04] + [code] + [|params| as byte];
    assert [EventMarkerByte] + hb + params == [EventMarkerByte, 0x04, code, |params| as byte] + params by {
      assert [EventMarkerByte, 0x04, code, |params| as byte] == [EventMarkerByte] + hb;
    }
    var a := Assembly(t, bin, 0);
    EventHeaderStep(t, code, params, bin, cmdKeys, evtKeys);
    QuietStep(a, cmdKeys, evtKeys);
    WholePayload(t[7..], params, [EventMarkerByte] + hb, cmdKeys, evtKeys);
    JunkIgnored(junk, t, bin, cmdKeys, evtKeys);
  }

  /** The first step on a spelled event: its header starts a packet waiting for the parameters. */
  lemma EventHeaderStep(t: string, code: byte, params: seq<byte>, bin: seq<byte>, cmdKeys: set<string>, evtKeys: set<string>)
    requires 0 < |params| < 256
    requires ToLower(t) == EventText(code, params)
    requires ToUpper(Bin2Hex([code])) in evtKeys || "00" in evtKeys
    ensures |t| == 7 + 2 * |params| && t[0] == '>' && ToLower(t[7..]) == Bin2Hex(params)
    ensures var hb := [0x04] + [code] + [|params| as byte];
      Step(Assembly(t, bin, 0), cmdKeys, evtKeys)
      == StepResult(Assembly(t[7..], [EventMarkerByte] + hb, 2 * |params|), true, None)
  {
    var hb := [0x04] + [code] + [|params| as byte];
    EventSpelled(t, code, params, cmdKeys, evtKeys);
    PrintedHeaderStarts(t, hb, 7, bin, cmdKeys, evtKeys);
  }

  /** What a spelled event shows the header code: its `>04`, a handled code and its header bytes. */
  lemma EventSpelled(t: string, code: byte, params: seq<byte>, cmdKeys: set<string>, evtKeys: set<string>)
    requires 0 < |params| < 256
    requires ToLower(t) == EventText(code, params)
    requires ToUpper(Bin2Hex([code])) in evtKeys || "00" in evtKeys
    ensures |t| == 7 + 2 * |params| && t[0] == '>' && t[..3] == ">04" && HeaderLength(t) == 7
    ensures IsHexText(t[1..]) && Hex2Bin(t[1..7]) == Some([0x04] + [code] + [|params| as byte])
    ensures ToLower(t[7..]) == Bin2Hex(params)
    ensures Handled(t, cmdKeys, evtKeys)
  {
    SpelledLayout(t, '>', 0x04, [code], params);
    assert t[..3] == ">04";
    assert t[..3] != "<01";
    assert Substr(t, 3, 2) == t[3..5];
    UpperOfLower(t[3..5]);
  }

  // ---------------------------------------------------------------------
  // The spelling of `hcidump -R`

  /** Text line 195 removes entirely: no hex digit and no marker. */
  predicate Blank(g: string) {
    forall i :: 0 <= i < |g| ==> !IsAllowed(g[i])
  }

  /**
   * Bytes as `hcidump -R` writes them: each byte as two upper-case hex
   * digits, after its own run of blanks (the spaces between bytes, the line
   * breaks and indentation of a long packet).
   */
  function Dumped(bytes: seq<byte>, gaps: seq<string>): (r: string)
    requires |gaps| == |bytes|
  {
    if |bytes| == 0 then "" else gaps[0] + ToUpper(Bin2Hex([bytes[0]])) + Dumped(bytes[1..], gaps[1..])
  }

  lemma {:induction false} SanitizeBlank(g: string)
    requires Blank(g)
    ensures Sanitize(g) == ""
  {
    if |g| > 0 {
      SanitizeBlank(g[1..]);
    }
  }

  /** One dumped byte is clean hex, and `bin2hex`'s pair in upper case. */
  lemma UpperPair(b: byte)
    ensures var u := ToUpper(Bin2Hex([b]));
      Sanitize(u) == u && ToLower(u) == Bin2Hex([b])
  {
    var u := ToUpper(Bin2Hex([b]));
    assert IsHexText(u);
    HexHasNoMarker(u);
    SanitizeClean(u);
    LowerOfUpper(Bin2Hex([b]));
    LowerHexHasNoUpper(Bin2Hex([b]));
  }

  /** Cleaning dumped bytes drops the blanks and leaves their hex, which is `bin2hex`'s up to case. */
  lemma {:induction false} DumpedCleans(bytes: seq<byte>, gaps: seq<string>)
    requires |gaps| == |bytes| && forall i :: 0 <= i < |gaps| ==> Blank(gaps[i])
    ensures ToLower(Sanitize(Dumped(bytes, gaps))) == Bin2Hex(bytes)
    decreases |bytes|
  {
    if |bytes| > 0 {
      var u := ToUpper(Bin2Hex([bytes[0]]));
      var rest := Dumped(bytes[1..], gaps[1..]);
      DumpedCleans(bytes[1..], gaps[1..]);
      assert Blank(gaps[0]);
      SanitizeBlank(gaps[0]);
      UpperPair(bytes[0]);
      SanitizeConcat(gaps[0], u);
      SanitizeConcat(gaps[0] + u, rest);
      assert Sanitize(Dumped(bytes, gaps)) == u + Sanitize(rest);
      LowerConcat(u, Sanitize(rest));
      Bin2HexConcat([bytes[0]], bytes[1..]);
      assert [bytes[0]] + bytes[1..] == bytes;
    }
  }

  /**
   * A packet as `hcidump -R` prints it, the marker, the bytes with their
   * blanks and any blanks after them, cleans to text whose lower-case form
   * is the packet's printed text, so `CommandFramed` and `EventFramed`
   * apply to it.
   */
  lemma DumpedSpellsPrinted(marker: char, indicator: byte, id: seq<byte>, params: seq<byte>, gaps: seq<string>, tail: string)
    requires IsMarker(marker) && |params| < 256
    requires |gaps| == |id| + |params| + 2 && (forall i :: 0 <= i < |gaps| ==> Blank(gaps[i])) && Blank(tail)
    ensures ToLower(Sanitize([marker] + Dumped([indicator] + id + [|params| as byte] + params, gaps) + tail))
         == Printed(marker, indicator, id, params)
  {
    MarkedDumpCleans(marker, [indicator] + id + [|params| as byte] + params, gaps, tail);
  }

  /** A marker, dumped bytes and trailing blanks clean to the marker and a spelling of `bin2hex` of the bytes. */
  lemma MarkedDumpCleans(marker: char, b: seq<byte>, gaps: seq<string>, tail: string)
    requires IsMarker(marker) && |gaps| == |b| && (forall i :: 0 <= i < |gaps| ==> Blank(gaps[i])) && Blank(tail)
    ensures ToLower(Sanitize([marker] + Dumped(b, gaps) + tail)) == [marker] + Bin2Hex(b)
  {
    var d := Dumped(b, gaps);
    DumpedCleans(b, gaps);
    MarkedClean(marker, d, tail);
    LowerConcat([marker], Sanitize(d));
  }

  /** Cleaning keeps a marker and drops trailing blanks. */
  lemma MarkedClean(marker: char, d: string, tail: string)
    requires IsMarker(marker) && Blank(tail)
    ensures Sanitize([marker] + d + tail) == [marker] + Sanitize(d)
  {
    SanitizeBlank(tail);
    SanitizeClean([marker]);
    SanitizeConcat([marker], d);
    SanitizeConcat([marker] + d, tail);
  }
}
