/**
 * Where `hcidump` happens to cut its output into chunks does not matter to
 * `HCIDump::_onStdOut` (src/HCIDump.php, lines 193-328): feeding two chunks
 * one after the other hands on the same packets, in the same order, and
 * leaves the same three fields as feeding their concatenation at once.
 *
 * The argument follows `Stream.Step`. An invocation that recurses has
 * decided on text it already holds, so appended text just rides along into
 * the next invocation. An invocation that stops is waiting for text: for
 * a header still incomplete, for payload characters, or (after a packet
 * completed with nothing behind it) for the next marker; appending more text
 * first and then invoking lands in the same place.
 */
module Chunking {
  import opened Wrappers
  import opened Text
  import opened Stream

  /** The fields after more cleaned text arrives (line 195 appends it to `_buffstr`). */
  function Append(a: Assembly, y: string): Assembly {
    a.(buffStr := a.buffStr + y)
  }

  // ---------------------------------------------------------------------
  // The first marker of longer text

  lemma {:induction false} FirstMarkerKept(s: string, y: string)
    requires FirstMarker(s).Some?
    ensures FirstMarker(s + y) == FirstMarker(s)
    decreases |s|
  {
    if !IsMarker(s[0]) {
      assert (s + y)[0] == s[0] && (s + y)[1..] == s[1..] + y;
      FirstMarkerKept(s[1..], y);
    }
  }

  /** A marker already in the text stays the first one; appended text joins the part from it on. */
  lemma MarkerKept(s: string, y: string)
    requires FirstMarker(s).Some?
    ensures BeforeMarker(s + y) == BeforeMarker(s) && FromMarker(s + y) == FromMarker(s) + y
  {
    FirstMarkerKept(s, y);
    SliceAppend(s, y, FirstMarker(s).value);
  }

  lemma SliceAppend(s: string, y: string, m: nat)
    requires m <= |s|
    ensures (s + y)[..m] == s[..m] && (s + y)[m..] == s[m..] + y
  {
  }

  lemma SubAppend(s: string, y: string, i: nat, j: nat)
    requires i <= j <= |s|
    ensures (s + y)[i..j] == s[i..j]
  {
  }

  /** Text without a marker joins the part of the appended text before its first marker. */
  lemma MarkerAfter(s: string, y: string)
    requires NoMarker(s)
    ensures BeforeMarker(s + y) == s + BeforeMarker(y) && FromMarker(s + y) == FromMarker(y)
  {
    FirstMarkerAfterJunk(s, y);
    match FirstMarker(y)
    case None =>
    case Some(m) =>
      assert (s + y)[..|s| + m] == s + y[..m];
      assert (s + y)[|s| + m..] == y[m..];
  }

  lemma NoMarkerConcat(s: string, t: string)
    requires NoMarker(s) && NoMarker(t)
    ensures NoMarker(s + t)
  {
    assert forall i :: |s| <= i < |s + t| ==> (s + t)[i] == t[i - |s|];
  }

  lemma AllowedConcat(s: string, t: string)
    requires AllAllowed(s) && AllAllowed(t)
    ensures AllAllowed(s + t)
  {
    assert forall i :: |s| <= i < |s + t| ==> (s + t)[i] == t[i - |s|];
  }

  /**
   * Lines 207-212 and 249-262: with no packet in progress, text without a
   * marker in front of anything is dropped unseen.
   */
  lemma JunkAnywhere(junk: string, u: string, bin: seq<byte>, cmdKeys: set<string>, evtKeys: set<string>)
    requires NoMarker(junk)
    ensures Drain(Assembly(junk + u, bin, 0), cmdKeys, evtKeys) == Drain(Assembly(u, bin, 0), cmdKeys, evtKeys)
  {
    var b, f := BeforeMarker(u), FromMarker(u);
    NoMarkerConcat(junk, b);
    assert junk + u == (junk + b) + f;
    JunkIgnored(junk + b, f, bin, cmdKeys, evtKeys);
    JunkIgnored(b, f, bin, cmdKeys, evtKeys);
  }

  // ---------------------------------------------------------------------
  // Invocations that recurse

  /** A packet in progress that is cut off or completed before a marker: the appended text follows the marker. */
  lemma ContinueAgainAppend(a: Assembly, y: string)
    requires a.dataLen > 0 && Continue(a).again
    ensures Continue(Append(a, y)) == StepResult(Append(Continue(a).next, y), true, Continue(a).packet)
  {
    assert FromMarker(a.buffStr) != "";
    MarkerKept(a.buffStr, y);
  }

  lemma StartsWithLonger(s: string, y: string, p: string)
    requires |p| <= |s|
    ensures StartsWith(s + y, p) == StartsWith(s, p)
  {
    assert (s + y)[..|p|] == s[..|p|];
  }

  /** A whole header already buffered is decided on its own characters. */
  lemma HeaderAppend(data: string, hdrLen: nat, bin: seq<byte>, y: string, cmdKeys: set<string>, evtKeys: set<string>)
    requires hdrLen == HeaderLength(data) > 0 && hdrLen <= |data|
    ensures HeaderLength(data + y) == hdrLen
    ensures Header(data + y, hdrLen, bin, cmdKeys, evtKeys)
         == StepResult(Append(Header(data, hdrLen, bin, cmdKeys, evtKeys).next, y), true, None)
  {
    StartsWithLonger(data, y, "<01");
    StartsWithLonger(data, y, ">04");
    var d := data + y;
    SubAppend(data, y, 1, hdrLen);
    SliceAppend(data, y, hdrLen);
    assert Substr(d, 3, 4) == Substr(data, 3, 4) by {
      if StartsWith(data, "<01") {
        SubAppend(data, y, 3, 7);
      }
    }
    assert Substr(d, 3, 2) == Substr(data, 3, 2) by {
      SubAppend(data, y, 3, 5);
    }
    assert Handled(d, cmdKeys, evtKeys) == Handled(data, cmdKeys, evtKeys);
    match FirstMarker(data[1..hdrLen])
    case Some(k) =>
      SliceAppend(data, y, k + 1);
    case None =>
  }

  /** No packet in progress and the invocation recurses: it already had the marker and header it acts on. */
  lemma FrameAgainAppend(a: Assembly, y: string, cmdKeys: set<string>, evtKeys: set<string>)
    requires |a.buffStr| > 0 && Frame(a, cmdKeys, evtKeys).again
    ensures Frame(Append(a, y), cmdKeys, evtKeys) == StepResult(Append(Frame(a, cmdKeys, evtKeys).next, y), true, None)
  {
    var data := FromMarker(a.buffStr);
    assert |data| >= 3;
    MarkerKept(a.buffStr, y);
    var hdrLen := HeaderLength(data);
    StartsWithLonger(data, y, "<01");
    StartsWithLonger(data, y, ">04");
    if hdrLen == 0 {
      SliceAppend(data, y, 1);
    } else {
      HeaderAppend(data, hdrLen, a.buffBin, y, cmdKeys, evtKeys);
    }
  }

  /** An invocation that recurses does the same with more text behind, which it passes on to the next one. */
  lemma StepAgainAppend(a: Assembly, y: string, cmdKeys: set<string>, evtKeys: set<string>)
    requires Step(a, cmdKeys, evtKeys).again
    ensures var s := Step(a, cmdKeys, evtKeys);
      Step(Append(a, y), cmdKeys, evtKeys) == StepResult(Append(s.next, y), true, s.packet)
  {
    if a.dataLen > 0 {
      ContinueAgainAppend(a, y);
    } else {
      FrameAgainAppend(a, y, cmdKeys, evtKeys);
    }
  }

  // ---------------------------------------------------------------------
  // Invocations that stop

  /** The count of characters to decode, with `k` (even) more available and wanted. */
  lemma CountShift(p: string, before: string, dataLen: nat)
    requires |p| % 2 == 0
    ensures EvenFloor(Min(|p + before|, |p| + dataLen)) == |p| + EvenFloor(Min(|before|, dataLen))
  {
    EvenFloorShift(|p|, Min(|before|, dataLen));
  }

  lemma SliceConcat(p: string, q: string, n: nat)
    requires n <= |q|
    ensures (p + q)[..|p| + n] == p + q[..n] && (p + q)[|p| + n..] == q[n..]
  {
  }

  /** `$blen % 2` on a sum whose first part is even. */
  lemma EvenFloorShift(n: nat, m: nat)
    requires n % 2 == 0
    ensures EvenFloor(n + m) == n + EvenFloor(m)
  {
  }

  /** A pending packet whose buffered text holds no marker resumes on that text and the appended text up to its first marker. */
  lemma PendingResume(a: Assembly, y: string, cmdKeys: set<string>, evtKeys: set<string>)
    requires a.dataLen > 0 && |a.buffStr| + |y| > 0 && NoMarker(a.buffStr)
    ensures Step(Append(a, y), cmdKeys, evtKeys)
      == Resume(a.buffStr + BeforeMarker(y), FromMarker(y), a.buffBin, a.dataLen, DecodeOrEmpty)
  {
    MarkerAfter(a.buffStr, y);
    ContinueIsResume(Append(a, y));
  }

  /**
   * Lines 214-238, a packet still short of payload: decoding `n` characters
   * now and the rest with the appended text later is decoding them at once.
   */
  lemma PendingSplit(s: string, y: string, bin: seq<byte>, dataLen: nat, n: nat, cmdKeys: set<string>, evtKeys: set<string>)
    requires AllAllowed(s) && NoMarker(s) && AllAllowed(y)
    requires 0 < n <= |s| && n % 2 == 0 && n < dataLen && |s| - n + |y| > 0
    ensures Step(Assembly(s + y, bin, dataLen), cmdKeys, evtKeys)
      == Step(Assembly(s[n..] + y, bin + DecodeOrEmpty(s[..n]), dataLen - n), cmdKeys, evtKeys)
  {
    var r := s[n..];
    assert NoMarker(r) by {
      assert forall i :: 0 <= i < |r| ==> r[i] == s[n + i];
    }
    PendingResume(Assembly(s, bin, dataLen), y, cmdKeys, evtKeys);
    PendingResume(Assembly(r, bin + DecodeOrEmpty(s[..n]), dataLen - n), y, cmdKeys, evtKeys);
    BeforeMarkerClean(y);
    ResumeDecodes(s, BeforeMarker(y), FromMarker(y), bin, dataLen, n);
  }

  lemma Rejoin(s: string, n: nat, t: string)
    requires n <= |s|
    ensures s + t == s[..n] + (s[n..] + t) && |s[..n]| == n
  {
    assert s == s[..n] + s[n..];
  }

  /** The decoded even prefix of the pending characters, then an even run of the rest, is the decoding of both. */
  lemma DecodeJoin(s: string, yb: string, n: nat, m: nat)
    requires AllAllowed(s) && NoMarker(s) && AllAllowed(yb) && NoMarker(yb)
    requires n <= |s| && n % 2 == 0
    ensures var q := s[n..] + yb;
      var n2 := EvenFloor(Min(|q|, m));
      n2 > 0 ==> DecodeOrEmpty(s[..n] + q[..n2]) == DecodeOrEmpty(s[..n]) + DecodeOrEmpty(q[..n2])
  {
    var q := s[n..] + yb;
    var n2 := EvenFloor(Min(|q|, m));
    if n2 > 0 {
      var r := s[n..];
      assert AllAllowed(r) && NoMarker(r) by {
        assert forall i :: 0 <= i < |r| ==> r[i] == s[n + i];
      }
      NoMarkerConcat(r, yb);
      AllowedConcat(r, yb);
      PayloadHex(s, n);
      PayloadHex(q, n2);
      Hex2BinConcat(s[..n], q[..n2]);
    }
  }

  /** Decoding the first `n` of the pending characters now leaves the invocation unchanged. */
  lemma ResumeDecodes(s: string, yb: string, data: string, bin: seq<byte>, dataLen: nat, n: nat)
    requires AllAllowed(s) && NoMarker(s) && AllAllowed(yb) && NoMarker(yb)
    requires 0 < n <= |s| && n % 2 == 0 && n < dataLen
    ensures Resume(s + yb, data, bin, dataLen, DecodeOrEmpty)
      == Resume(s[n..] + yb, data, bin + DecodeOrEmpty(s[..n]), dataLen - n, DecodeOrEmpty)
  {
    var p := s[..n];
    var q := s[n..] + yb;
    var m := dataLen - n;
    DecodeJoin(s, yb, n, m);
    Rejoin(s, n, yb);
    ResumeShift(p, q, s + yb, data, bin, m, dataLen, DecodeOrEmpty);
  }

  /**
   * `Continue` on its parts: the text before the first marker, the text from
   * it on, the bytes so far, the count, and the decoder (`hex2bin`).
   */
  function Resume(before: string, data: string, bin: seq<byte>, dataLen: nat, decode: string -> seq<byte>): StepResult {
    if |data| > 0 && |before| < dataLen then StepResult(Assembly(data, [], 0), true, None)
    else
      var n := EvenFloor(Min(|before|, dataLen));
      if n == 0 then StepResult(Assembly(before, bin, dataLen), false, None)
      else
        var bin' := bin + decode(before[..n]);
        if dataLen - n > 0 then StepResult(Assembly(before[n..], bin', dataLen - n), false, None)
        else if |data| > 0 then StepResult(Assembly(data, [], 0), true, Some(bin'))
        else StepResult(Assembly("", [], 0), false, Some(bin'))
  }

  /** The buffered text matters to `Continue` only through the split at its first marker. */
  lemma ContinueIsResume(a: Assembly)
    requires a.dataLen > 0
    ensures Continue(a) == Resume(BeforeMarker(a.buffStr), FromMarker(a.buffStr), a.buffBin, a.dataLen, DecodeOrEmpty)
  {
    if FromMarker(a.buffStr) == "" {
      assert BeforeMarker(a.buffStr) == a.buffStr;
    }
  }

  /**
   * With `p` more payload characters in front and exactly `|p|` more of
   * them wanted, or with those already decoded, the invocation comes out the
   * same, provided decoding `p` and then the next characters is decoding
   * them at once.
   */
  lemma ResumeShift(p: string, before: string, whole: string, data: string, bin: seq<byte>, dataLen: nat, total: nat,
                    decode: string -> seq<byte>)
    requires whole == p + before && total == |p| + dataLen
    requires dataLen > 0 && |p| % 2 == 0 && decode("") == []
    requires var n := EvenFloor(Min(|before|, dataLen));
      n > 0 ==> decode(p + before[..n]) == decode(p) + decode(before[..n])
    ensures Resume(whole, data, bin, total, decode) == Resume(before, data, bin + decode(p), dataLen, decode)
  {
    var n2 := EvenFloor(Min(|before|, dataLen));
    CountShift(p, before, dataLen);
    SliceConcat(p, before, n2);
    if |data| > 0 && |before| < dataLen {
    } else if n2 > 0 {
      assert bin + decode((p + before)[..|p| + n2]) == bin + decode(p) + decode(before[..n2]);
    } else if |p| == 0 {
      assert p + before == before && bin + decode(p) == bin;
    }
  }

  lemma BeforeMarkerClean(y: string)
    requires AllAllowed(y)
    ensures AllAllowed(BeforeMarker(y)) && NoMarker(BeforeMarker(y))
  {
    SplitAtMarkerClean(y);
  }

  /** An even run of clean, marker-free characters decodes. */
  lemma PayloadHex(s: string, n: nat)
    requires AllAllowed(s) && NoMarker(s) && n <= |s| && n % 2 == 0
    ensures Hex2Bin(s[..n]).Some?
  {
    ConsumedPayload(s, n);
  }

  /** A packet in progress waiting for payload (lines 225-238): appending first changes nothing overall. */
  lemma ContinueStopAppend(a: Assembly, y: string, cmdKeys: set<string>, evtKeys: set<string>)
    requires Valid(a) && a.dataLen > 0 && |a.buffStr| > 0 && AllAllowed(y)
    requires !Continue(a).again && Continue(a).packet.None?
    ensures Drain(Append(a, y), cmdKeys, evtKeys) == Drain(Append(Continue(a).next, y), cmdKeys, evtKeys)
  {
    ContinueStopShape(a);
    var s := a.buffStr;
    var n := EvenFloor(Min(|s|, a.dataLen));
    if n > 0 {
      assert Append(a, y) == Assembly(s + y, a.buffBin, a.dataLen);
      assert Append(Continue(a).next, y) == Assembly(s[n..] + y, a.buffBin + DecodeOrEmpty(s[..n]), a.dataLen - n);
      StopDrainAppend(s, y, a.buffBin, a.dataLen, n, cmdKeys, evtKeys);
    }
  }

  /** Lines 214-238 over the parts of the state: a pending packet still short of payload, drained with more text behind. */
  lemma StopDrainAppend(s: string, y: string, bin: seq<byte>, dataLen: nat, n: nat, cmdKeys: set<string>, evtKeys: set<string>)
    requires AllAllowed(s) && NoMarker(s) && AllAllowed(y)
    requires n == EvenFloor(Min(|s|, dataLen)) && 0 < n < dataLen
    ensures Drain(Assembly(s + y, bin, dataLen), cmdKeys, evtKeys)
      == Drain(Assembly(s[n..] + y, bin + DecodeOrEmpty(s[..n]), dataLen - n), cmdKeys, evtKeys)
  {
    if |s| - n + |y| > 0 {
      PendingDrainSplit(s, y, bin, dataLen, n, cmdKeys, evtKeys);
    } else {
      NothingLeft(s, y, bin, dataLen, n, cmdKeys, evtKeys);
    }
  }

  /** Nothing appended and nothing left over: both drains are the one step that stops. */
  lemma NothingLeft(s: string, y: string, bin: seq<byte>, dataLen: nat, n: nat, cmdKeys: set<string>, evtKeys: set<string>)
    requires NoMarker(s) && y == "" && 0 < n == |s| < dataLen && n == EvenFloor(Min(|s|, dataLen))
    ensures Drain(Assembly(s + y, bin, dataLen), cmdKeys, evtKeys)
      == Drain(Assembly(s[n..] + y, bin + DecodeOrEmpty(s[..n]), dataLen - n), cmdKeys, evtKeys)
  {
    var a := Assembly(s, bin, dataLen);
    var b := Assembly("", bin + DecodeOrEmpty(s[..n]), dataLen - n);
    assert s + y == s && s[n..] + y == "";
    assert BeforeMarker(s) == s && FromMarker(s) == "";
    ContinueIsResume(a);
    assert Step(a, cmdKeys, evtKeys) == StepResult(b, false, None);
    DrainStep(a, cmdKeys, evtKeys);
    DrainStep(b, cmdKeys, evtKeys);
  }

  /** An invocation on a pending packet that neither recurses nor completes it: all the text is payload, decoded up to an even count. */
  lemma ContinueStopShape(a: Assembly)
    requires Valid(a) && a.dataLen > 0 && |a.buffStr| > 0
    requires !Continue(a).again && Continue(a).packet.None?
    ensures var n := EvenFloor(Min(|a.buffStr|, a.dataLen));
      && NoMarker(a.buffStr) && n < a.dataLen
      && Continue(a).next == if n == 0 then a
         else Assembly(a.buffStr[n..], a.buffBin + DecodeOrEmpty(a.buffStr[..n]), a.dataLen - n)
  {
    WholeBeforeMarker(a.buffStr);
  }

  /** Lines 214-238 over the parts of the state, drained. */
  lemma PendingDrainSplit(s: string, y: string, bin: seq<byte>, dataLen: nat, n: nat, cmdKeys: set<string>, evtKeys: set<string>)
    requires AllAllowed(s) && NoMarker(s) && AllAllowed(y)
    requires 0 < n <= |s| && n % 2 == 0 && n < dataLen && |s| - n + |y| > 0
    ensures Drain(Assembly(s + y, bin, dataLen), cmdKeys, evtKeys)
      == Drain(Assembly(s[n..] + y, bin + DecodeOrEmpty(s[..n]), dataLen - n), cmdKeys, evtKeys)
  {
    PendingSplit(s, y, bin, dataLen, n, cmdKeys, evtKeys);
    SameStepSameDrain(Assembly(s + y, bin, dataLen), Assembly(s[n..] + y, bin + DecodeOrEmpty(s[..n]), dataLen - n), cmdKeys, evtKeys);
  }


  /** Text with no marker in which a packet is pending is all payload. */
  lemma WholeBeforeMarker(s: string)
    requires FromMarker(s) == ""
    ensures BeforeMarker(s) == s && NoMarker(s)
  {
    assert BeforeMarker(s) + FromMarker(s) == s;
  }


  /** The drain depends on the state only through its first invocation and what follows. */
  lemma SameStepSameDrain(a: Assembly, b: Assembly, cmdKeys: set<string>, evtKeys: set<string>)
    requires Step(a, cmdKeys, evtKeys) == Step(b, cmdKeys, evtKeys)
    ensures Drain(a, cmdKeys, evtKeys) == Drain(b, cmdKeys, evtKeys)
  {
    DrainStep(a, cmdKeys, evtKeys);
    DrainStep(b, cmdKeys, evtKeys);
  }


  /**
   * Lines 239-247: a packet completed with no marker behind it. The text
   * after its payload is dropped either way, and what was appended is read
   * from a fresh state.
   */
  lemma ContinueCompleteAppend(a: Assembly, y: string, cmdKeys: set<string>, evtKeys: set<string>)
    requires Valid(a) && a.dataLen > 0 && |a.buffStr| > 0 && AllAllowed(y)
    requires !Continue(a).again && Continue(a).packet.Some?
    ensures Continue(a).next == Assembly("", [], 0)
    ensures var e := Drain(Assembly(y, [], 0), cmdKeys, evtKeys);
      Drain(Append(a, y), cmdKeys, evtKeys) == Drained(e.final, [Continue(a).packet.value] + e.packets)
  {
    CompleteShape(a);
    assert Append(a, y) == Assembly(a.buffStr + y, a.buffBin, a.dataLen);
    CompleteDrainAppend(a.buffStr, y, a.buffBin, a.dataLen, cmdKeys, evtKeys);
  }

  /** An invocation that completes the pending packet: the text is all payload, and all of it that is wanted was there. */
  lemma CompleteShape(a: Assembly)
    requires Valid(a) && a.dataLen > 0 && |a.buffStr| > 0
    requires !Continue(a).again && Continue(a).packet.Some?
    ensures NoMarker(a.buffStr) && a.dataLen <= |a.buffStr|
    ensures Continue(a) == StepResult(Assembly("", [], 0), false, Some(a.buffBin + DecodeOrEmpty(a.buffStr[..a.dataLen])))
  {
    WholeBeforeMarker(a.buffStr);
  }

  /** Lines 239-247 with text appended: the same packet, and the appended text from its first marker on is processed next. */
  lemma CompleteStepAppend(s: string, y: string, bin: seq<byte>, dataLen: nat, cmdKeys: set<string>, evtKeys: set<string>)
    requires NoMarker(s) && 0 < dataLen <= |s| && dataLen % 2 == 0
    ensures Step(Assembly(s + y, bin, dataLen), cmdKeys, evtKeys)
      == StepResult(Assembly(FromMarker(y), [], 0), |FromMarker(y)| > 0, Some(bin + DecodeOrEmpty(s[..dataLen])))
  {
    assert Append(Assembly(s, bin, dataLen), y) == Assembly(s + y, bin, dataLen);
    PendingResume(Assembly(s, bin, dataLen), y, cmdKeys, evtKeys);
    SliceAppend(s, BeforeMarker(y), dataLen);
  }

  lemma CompleteDrainAppend(s: string, y: string, bin: seq<byte>, dataLen: nat, cmdKeys: set<string>, evtKeys: set<string>)
    requires NoMarker(s) && 0 < dataLen <= |s| && dataLen % 2 == 0
    ensures var e := Drain(Assembly(y, [], 0), cmdKeys, evtKeys);
      Drain(Assembly(s + y, bin, dataLen), cmdKeys, evtKeys) == Drained(e.final, [bin + DecodeOrEmpty(s[..dataLen])] + e.packets)
  {
    var b, f := BeforeMarker(y), FromMarker(y);
    var packet := bin + DecodeOrEmpty(s[..dataLen]);
    CompleteStepAppend(s, y, bin, dataLen, cmdKeys, evtKeys);
    DrainStep(Assembly(s + y, bin, dataLen), cmdKeys, evtKeys);
    assert b + f == y;
    JunkAnywhere(b, f, [], cmdKeys, evtKeys);
    if f == "" {
      DrainStep(Assembly("", [], 0), cmdKeys, evtKeys);
      OnePacket(packet);
    }
  }

  lemma OnePacket(p: seq<byte>)
    ensures [p] + [] == [p] && PacketsOf(Some(p)) == [p]
  {
  }

  /**
   * Lines 249-284, no packet in progress and waiting for a marker or the rest
   * of a header: what is kept is the text from the first marker on, and the
   * text before it would be dropped anyway.
   */
  lemma FrameStopAppend(a: Assembly, y: string, cmdKeys: set<string>, evtKeys: set<string>)
    requires a.dataLen == 0 && |a.buffStr| > 0 && !Frame(a, cmdKeys, evtKeys).again
    ensures Drain(Append(a, y), cmdKeys, evtKeys) == Drain(Append(Frame(a, cmdKeys, evtKeys).next, y), cmdKeys, evtKeys)
  {
    var junk, data := BeforeMarker(a.buffStr), FromMarker(a.buffStr);
    assert Append(Frame(a, cmdKeys, evtKeys).next, y) == Assembly(data + y, a.buffBin, 0);
    assert a.buffStr + y == junk + (data + y);
    JunkAnywhere(junk, data + y, a.buffBin, cmdKeys, evtKeys);
  }

  /** An invocation that stops: appending and then draining is its packet, then draining its state with the text. */
  lemma StepStopAppend(a: Assembly, y: string, cmdKeys: set<string>, evtKeys: set<string>)
    requires Valid(a) && AllAllowed(y) && !Step(a, cmdKeys, evtKeys).again
    ensures var s := Step(a, cmdKeys, evtKeys);
      var e := Drain(Append(s.next, y), cmdKeys, evtKeys);
      Drain(Append(a, y), cmdKeys, evtKeys) == Drained(e.final, PacketsOf(s.packet) + e.packets)
  {
    if |a.buffStr| == 0 {
      assert Step(a, cmdKeys, evtKeys) == StepResult(a, false, None);
      NoPacket(None, Drain(Append(a, y), cmdKeys, evtKeys).packets);
    } else if a.dataLen > 0 {
      if Continue(a).packet.None? {
        ContinueStopDrain(a, y, cmdKeys, evtKeys);
      } else {
        ContinueCompleteDrain(a, y, cmdKeys, evtKeys);
      }
    } else {
      FrameStopDrain(a, y, cmdKeys, evtKeys);
    }
  }

  lemma ContinueStopDrain(a: Assembly, y: string, cmdKeys: set<string>, evtKeys: set<string>)
    requires Valid(a) && a.dataLen > 0 && |a.buffStr| > 0 && AllAllowed(y)
    requires !Continue(a).again && Continue(a).packet.None?
    ensures var s := Step(a, cmdKeys, evtKeys);
      var e := Drain(Append(s.next, y), cmdKeys, evtKeys);
      Drain(Append(a, y), cmdKeys, evtKeys) == Drained(e.final, PacketsOf(s.packet) + e.packets)
  {
    ContinueStopAppend(a, y, cmdKeys, evtKeys);
    NoPacket(Continue(a).packet, Drain(Append(Continue(a).next, y), cmdKeys, evtKeys).packets);
  }

  lemma ContinueCompleteDrain(a: Assembly, y: string, cmdKeys: set<string>, evtKeys: set<string>)
    requires Valid(a) && a.dataLen > 0 && |a.buffStr| > 0 && AllAllowed(y)
    requires !Continue(a).again && Continue(a).packet.Some?
    ensures var s := Step(a, cmdKeys, evtKeys);
      var e := Drain(Append(s.next, y), cmdKeys, evtKeys);
      Drain(Append(a, y), cmdKeys, evtKeys) == Drained(e.final, PacketsOf(s.packet) + e.packets)
  {
    ContinueCompleteAppend(a, y, cmdKeys, evtKeys);
    assert Append(Continue(a).next, y) == Assembly(y, [], 0);
  }

  lemma FrameStopDrain(a: Assembly, y: string, cmdKeys: set<string>, evtKeys: set<string>)
    requires a.dataLen == 0 && |a.buffStr| > 0 && !Frame(a, cmdKeys, evtKeys).again
    ensures var s := Step(a, cmdKeys, evtKeys);
      var e := Drain(Append(s.next, y), cmdKeys, evtKeys);
      Drain(Append(a, y), cmdKeys, evtKeys) == Drained(e.final, PacketsOf(s.packet) + e.packets)
  {
    var f := Frame(a, cmdKeys, evtKeys);
    FrameStopAppend(a, y, cmdKeys, evtKeys);
    NoPacket(f.packet, Drain(Append(f.next, y), cmdKeys, evtKeys).packets);
  }

  lemma NoPacket(o: Option<seq<byte>>, u: seq<seq<byte>>)
    requires o.None?
    ensures PacketsOf(o) + u == u
  {
  }

  // ---------------------------------------------------------------------
  // Chunk boundaries

  lemma DrainAgain(a: Assembly, cmdKeys: set<string>, evtKeys: set<string>)
    requires Step(a, cmdKeys, evtKeys).again
    ensures var s := Step(a, cmdKeys, evtKeys);
      var d := Drain(s.next, cmdKeys, evtKeys);
      Drain(a, cmdKeys, evtKeys) == Drained(d.final, PacketsOf(s.packet) + d.packets)
  {
    DrainStep(a, cmdKeys, evtKeys);
  }

  lemma DrainAgainLonger(a: Assembly, y: string, cmdKeys: set<string>, evtKeys: set<string>)
    requires Step(a, cmdKeys, evtKeys).again
    ensures var s := Step(a, cmdKeys, evtKeys);
      var d := Drain(Append(s.next, y), cmdKeys, evtKeys);
      Drain(Append(a, y), cmdKeys, evtKeys) == Drained(d.final, PacketsOf(s.packet) + d.packets)
  {
    StepAgainAppend(a, y, cmdKeys, evtKeys);
    DrainStep(Append(a, y), cmdKeys, evtKeys);
  }

  /** A recursing step: the drain of the longer text is that step followed by the drain of its next state with the text appended. */
  lemma DrainAgainAppend(a: Assembly, y: string, cmdKeys: set<string>, evtKeys: set<string>)
    requires Step(a, cmdKeys, evtKeys).again
    requires var s := Step(a, cmdKeys, evtKeys);
      var d2 := Drain(s.next, cmdKeys, evtKeys);
      var e := Drain(Append(d2.final, y), cmdKeys, evtKeys);
      Drain(Append(s.next, y), cmdKeys, evtKeys) == Drained(e.final, d2.packets + e.packets)
    ensures var d := Drain(a, cmdKeys, evtKeys);
      var e := Drain(Append(d.final, y), cmdKeys, evtKeys);
      Drain(Append(a, y), cmdKeys, evtKeys) == Drained(e.final, d.packets + e.packets)
  {
    var s := Step(a, cmdKeys, evtKeys);
    var out := PacketsOf(s.packet);
    var d2 := Drain(s.next, cmdKeys, evtKeys);
    var e := Drain(Append(d2.final, y), cmdKeys, evtKeys);
    var ey := Drain(Append(s.next, y), cmdKeys, evtKeys);
    DrainAgain(a, cmdKeys, evtKeys);
    DrainAgainLonger(a, y, cmdKeys, evtKeys);
    Regroup(out, d2.packets, e.packets);
  }

  lemma Regroup(p: seq<seq<byte>>, q: seq<seq<byte>>, u: seq<seq<byte>>)
    ensures p + (q + u) == (p + q) + u
  {
  }

  /**
   * Draining, then appending and draining again, is appending first and
   * draining once: the packets of the first drain come first.
   */
  lemma {:induction false} DrainAppend(a: Assembly, y: string, cmdKeys: set<string>, evtKeys: set<string>)
    requires Valid(a) && AllAllowed(y)
    ensures var d := Drain(a, cmdKeys, evtKeys);
      var e := Drain(Append(d.final, y), cmdKeys, evtKeys);
      Drain(Append(a, y), cmdKeys, evtKeys) == Drained(e.final, d.packets + e.packets)
    decreases Measure(a)
  {
    var s := Step(a, cmdKeys, evtKeys);
    if s.again {
      StepPreservesValid(a, cmdKeys, evtKeys);
      DrainAppend(s.next, y, cmdKeys, evtKeys);
      DrainAgainAppend(a, y, cmdKeys, evtKeys);
    } else {
      StepStopAppend(a, y, cmdKeys, evtKeys);
    }
  }

  /**
   * `_onStdOut($x)` followed by `_onStdOut($y)` hands on the packets of
   * `_onStdOut($x . $y)`, in the same order, and leaves the same fields.
   */
  lemma FeedSplit(a: Assembly, x: string, y: string, cmdKeys: set<string>, evtKeys: set<string>)
    requires Valid(a)
    ensures var d := Feed(a, x, cmdKeys, evtKeys);
      var e := Feed(d.final, y, cmdKeys, evtKeys);
      Feed(a, x + y, cmdKeys, evtKeys) == Drained(e.final, d.packets + e.packets)
  {
    var b := Append(a, Sanitize(x));
    AppendPreservesValid(a, x);
    SanitizeConcat(x, y);
    assert Append(b, Sanitize(y)) == a.(buffStr := a.buffStr + Sanitize(x + y));
    DrainAppend(b, Sanitize(y), cmdKeys, evtKeys);
  }

  /** `_onStdOut` called once per chunk, in order. */
  function FeedAll(a: Assembly, chunks: seq<string>, cmdKeys: set<string>, evtKeys: set<string>): (r: Drained)
    ensures |chunks| == 1 ==> r == Feed(a, chunks[0], cmdKeys, evtKeys)
    decreases |chunks|
  {
    if |chunks| == 0 then Drained(a, [])
    else
      var d := Feed(a, chunks[0], cmdKeys, evtKeys);
      var e := FeedAll(d.final, chunks[1..], cmdKeys, evtKeys);
      Drained(e.final, d.packets + e.packets)
  }

  /** The chunks as one text. */
  function Joined(chunks: seq<string>): (r: string)
    ensures |chunks| == 1 ==> r == chunks[0]
  {
    if |chunks| == 0 then "" else chunks[0] + Joined(chunks[1..])
  }

  /** However the output is cut into (at least one) chunks, the packets and the final fields are those of the whole. */
  lemma {:induction false} FeedAllJoined(a: Assembly, chunks: seq<string>, cmdKeys: set<string>, evtKeys: set<string>)
    requires Valid(a) && |chunks| > 0
    ensures FeedAll(a, chunks, cmdKeys, evtKeys) == Feed(a, Joined(chunks), cmdKeys, evtKeys)
    decreases |chunks|
  {
    if |chunks| > 1 {
      var d := Feed(a, chunks[0], cmdKeys, evtKeys);
      FeedPreservesValid(a, chunks[0], cmdKeys, evtKeys);
      FeedAllJoined(d.final, chunks[1..], cmdKeys, evtKeys);
      FeedSplit(a, chunks[0], Joined(chunks[1..]), cmdKeys, evtKeys);
    }
  }

  // ---------------------------------------------------------------------
  // Whole packets, in any chunks

  lemma SanitizeNoMarker(s: string)
    requires NoMarker(s)
    ensures NoMarker(Sanitize(s))
  {
    SanitizeMarkers(s);
  }

  /** Cleaning keeps exactly the markers there were, so it adds none. */
  lemma {:induction false} SanitizeMarkers(s: string)
    ensures NoMarker(s) ==> NoMarker(Sanitize(s))
    decreases |s|
  {
    if |s| > 0 {
      SanitizeMarkers(s[1..]);
      if NoMarker(s) {
        assert forall i :: 0 <= i < |s| - 1 ==> s[1..][i] == s[i + 1];
        var h: string := if IsAllowed(s[0]) then [s[0]] else [];
        NoMarkerConcat(h, Sanitize(s[1..]));
      }
    }
  }

  /**
   * A command in any spelling that cleans to it (the printed text in either
   * letter case, with any blanks between its digits, as `DumpedSpellsPrinted`
   * shows `hcidump -R` writes it), after any junk without a marker, with a
   * handler for its opcode or the wildcard, arriving in any number of chunks
   * cut anywhere, is handed on as exactly one packet.
   */
  lemma CommandFramedInChunks(chunks: seq<string>, junk: string, raw: string, opcode: seq<byte>, params: seq<byte>,
                              bin: seq<byte>, cmdKeys: set<string>, evtKeys: set<string>)
    requires NoMarker(junk) && |opcode| == 2 && 0 < |params| < 256
    requires ToUpper(Bin2Hex(opcode)) in cmdKeys || "0000" in cmdKeys
    requires ToLower(Sanitize(raw)) == CommandText(opcode, params)
    requires |chunks| > 0 && Joined(chunks) == junk + raw
    ensures FeedAll(Assembly("", bin, 0), chunks, cmdKeys, evtKeys)
         == Drained(Assembly("", [], 0), [[CommandMarkerByte, 0x01] + opcode + [|params| as byte] + params])
  {
    FeedAllJoined(Assembly("", bin, 0), chunks, cmdKeys, evtKeys);
    SanitizeConcat(junk, raw);
    SanitizeNoMarker(junk);
    assert "" + Sanitize(junk + raw) == Sanitize(junk) + Sanitize(raw);
    CommandFramed(Sanitize(junk), Sanitize(raw), opcode, params, bin, cmdKeys, evtKeys);
  }

  /** The same for an event. */
  lemma EventFramedInChunks(chunks: seq<string>, junk: string, raw: string, code: byte, params: seq<byte>,
                            bin: seq<byte>, cmdKeys: set<string>, evtKeys: set<string>)
    requires NoMarker(junk) && 0 < |params| < 256
    requires ToUpper(Bin2Hex([code])) in evtKeys || "00" in evtKeys
    requires ToLower(Sanitize(raw)) == EventText(code, params)
    requires |chunks| > 0 && Joined(chunks) == junk + raw
    ensures FeedAll(Assembly("", bin, 0), chunks, cmdKeys, evtKeys)
         == Drained(Assembly("", [], 0), [[EventMarkerByte, 0x04, code, |params| as byte] + params])
  {
    FeedAllJoined(Assembly("", bin, 0), chunks, cmdKeys, evtKeys);
    SanitizeConcat(junk, raw);
    SanitizeNoMarker(junk);
    assert "" + Sanitize(junk + raw) == Sanitize(junk) + Sanitize(raw);
    EventFramed(Sanitize(junk), Sanitize(raw), code, params, bin, cmdKeys, evtKeys);
  }

  /** The unspaced lower-case spelling `bin2hex` gives is already clean text. */
  lemma PrintedClean(marker: char, indicator: byte, id: seq<byte>, params: seq<byte>)
    requires IsMarker(marker) && indicator < 16 && |params| < 256
    ensures AllAllowed(Printed(marker, indicator, id, params))
  {
    PrintedLayout(marker, indicator, id, params);
    var t := Printed(marker, indicator, id, params);
    assert t[0] == t[..3][0];
    PrintedIsClean(t);
  }
}
