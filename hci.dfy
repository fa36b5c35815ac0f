/**
 * The reply handling of src/HCI.php: building the `hcitool cmd` command line,
 * extracting the Command Complete reply from its output, reading a command
 * result out of that reply (Bluetooth Core Specification v5.4, Vol 4, Part E,
 * section 7.7.14: packet count, opcode, status, return parameters), parsing
 * the `hciconfig` adapter list, looking an adapter up, and turning an event
 * mask into command parameters. Running the tools is outside the model:
 * their output lines are parameters.
 */
module Hci {
  import opened Wrappers
  import opened Text
  import opened Commands
  import opened HciErrors
  import opened Adapters
  import opened Dicts

  /** A PHP integer: 64-bit two's complement. */
  type Int64 = x: int | -0x8000_0000_0000_0000 <= x < 0x8000_0000_0000_0000

  const TwoTo64: nat := 0x1_0000_0000_0000_0000

  // ---------------------------------------------------------------------------
  // Command results
  // ---------------------------------------------------------------------------

  /**
   * src/HCI/CommandResult.php. `ogf` and `ocf` are None where `cmdRet`
   * stores the null of an opcode that did not decode; the record's own
   * defaults are empty strings.
   */
  datatype CommandResult = CommandResult(
    ok: bool, ogf: Option<string>, ocf: Option<string>, ret: string, err: Option<HciError>)

  /** The result for a missing or falsy reply. */
  const NoReply := CommandResult(false, Some(""), Some(""), "", Some(NewError("NA")))

  /**
   * `$sts == '00'` in PHP 8 for a status of at most two characters: the same
   * string, or a numeric string whose value is zero.
   */
  predicate LooseZero(s: string) {
    s == "00" || s == "0"
    || (|s| == 2 && ((IsSpace(s[0]) && s[1] == '0') || (s[0] == '0' && IsSpace(s[1]))
                     || s == "+0" || s == "-0" || s == ".0" || s == "0."))
  }

  /** The status field of a reply: two characters at `6 + stsbyte`, or `00` when there is none. */
  function Status(reply: string, stsbyte: Option<int>): (r: string)
    ensures |r| <= 2
    ensures stsbyte.None? ==> r == "00"
  {
    if stsbyte.Some? then Substr(reply, 6 + stsbyte.value, 2) else "00"
  }

  /** `cmdRet` without its effect on the silence flag and the log. */
  function CmdResultOf(reply: Option<string>, stsbyte: Option<int>): (r: CommandResult)
    ensures r.ok <==> r.err.None?
    ensures reply.None? || Falsy(reply.value) ==> r == NoReply
    ensures reply.Some? && !Falsy(reply.value) ==>
      (r.ok <==> LooseZero(Status(reply.value, stsbyte)))
      && (!r.ok ==> r.err == Some(NewError(Status(reply.value, stsbyte))))
      && (r.ogf.Some? <==> HexOpcodeToOgfOcf(Substr(reply.value, 2, 4)).Some?)
    ensures reply.Some? && !Falsy(reply.value) && stsbyte.None? ==> r.ok && r.ret == ""
    ensures reply.Some? && !Falsy(reply.value) && stsbyte.Some? ==>
      r.ret == SubstrFrom(reply.value, 8 + stsbyte.value)
    ensures reply.Some? && !Falsy(reply.value) && r.ogf.Some? ==>
      var f := HexOpcodeToOgfOcf(Substr(reply.value, 2, 4)).value;
      r.ogf == Some(f.ogf) && r.ocf == Some(f.ocf)
    ensures reply.Some? && !Falsy(reply.value) && r.ogf.None? ==> r.ocf.None?
  {
    if reply.None? || Falsy(reply.value) then NoReply
    else
      var text := reply.value;
      var opc := HexOpcodeToOgfOcf(Substr(text, 2, 4));
      var sts := Status(text, stsbyte);
      var ok := LooseZero(sts);
      CommandResult(
        ok,
        if opc.Some? then Some(opc.value.ogf) else None,
        if opc.Some? then Some(opc.value.ocf) else None,
        if stsbyte.Some? then SubstrFrom(text, 8 + stsbyte.value) else "",
        if ok then None else Some(NewError(sts)))
  }

  /** For a status of two hex digits the loose comparison is plain equality with `00`. */
  lemma HexStatus(s: string)
    requires |s| == 2 && IsHexText(s)
    ensures LooseZero(s) <==> s == "00"
  {
    assert IsHexDigit(s[0]) && IsHexDigit(s[1]);
    assert s != "+0" && s != "-0" && s != ".0" && s != "0.";
  }

  /** A byte prints as `00` exactly when it is zero. */
  lemma ByteHexZero(b: byte)
    ensures Bin2Hex([b]) == "00" <==> b == 0
  {
    var h := Bin2Hex([b]);
    assert h == [LowerHexDigit(b / 16), LowerHexDigit(b % 16)];
    if h == "00" {
      assert HexValue(h[0]) == b / 16 && HexValue(h[1]) == b % 16;
    }
  }

  /**
   * The Command Complete reply `ncmd, opcode, status, params`, as any hex
   * text that spells it (either letter case), read with the status at byte
   * 3: `ok` holds exactly when the status is zero, the error carries the
   * status, the fields are the opcode's OGF and OCF, and `ret` spells the
   * return parameters.
   */
  lemma CommandCompleteReply(text: string, ncmd: byte, opcode: seq<byte>, status: byte, params: seq<byte>)
    requires |opcode| == 2 && Hex2Bin(text) == Some([ncmd] + opcode + [status] + params)
    ensures BinOpcodeToOgfOcf(opcode).Some?
    ensures var r := CmdResultOf(Some(text), Some(0));
      var f := BinOpcodeToOgfOcf(opcode).value;
      && (r.ok <==> status == 0)
      && (status != 0 ==> r.err == Some(NewError(Bin2Hex([status]))))
      && r.ogf == Some(Bin2Hex(f.ogf))
      && r.ocf == Some(Bin2Hex(f.ocf))
      && Hex2Bin(r.ret) == Some(params)
      && ToLower(r.ret) == Bin2Hex(params)
  {
    SpelledReply(text, ncmd, opcode, status, params);
    SpelledStatus(text[6..8], status);
    SpelledOpcode(text[2..6], opcode);
  }

  /** A status spelled in either case: zero exactly when it is `00`, and the same error. */
  lemma SpelledStatus(st: string, status: byte)
    requires ToLower(st) == Bin2Hex([status])
    ensures LooseZero(st) <==> status == 0
    ensures NewError(st) == NewError(Bin2Hex([status]))
  {
    SpelledHex(st, [status]);
    ByteHexZero(status);
    HexStatus(st);
    assert st == "00" <==> Bin2Hex([status]) == "00" by {
      LowerCharKeeps(st[0]);
      LowerCharKeeps(st[1]);
    }
    NewErrorIgnoresCase(st);
  }

  /** An opcode spelled in either case decodes to the fields of its bytes. */
  lemma SpelledOpcode(o: string, opcode: seq<byte>)
    requires |opcode| == 2 && Hex2Bin(o) == Some(opcode)
    ensures BinOpcodeToOgfOcf(opcode).Some?
    ensures var f := BinOpcodeToOgfOcf(opcode).value;
      HexOpcodeToOgfOcf(o) == Some(Fields(Bin2Hex(f.ogf), Bin2Hex(f.ocf)))
  {
  }

  /** Where the reply's fields sit in any spelling of it. */
  lemma SpelledReply(text: string, ncmd: byte, opcode: seq<byte>, status: byte, params: seq<byte>)
    requires |opcode| == 2 && Hex2Bin(text) == Some([ncmd] + opcode + [status] + params)
    ensures |text| == 8 + 2 * |params| && !Falsy(text)
    ensures Substr(text, 2, 4) == text[2..6] && Hex2Bin(text[2..6]) == Some(opcode)
    ensures Status(text, Some(0)) == text[6..8] && IsHexText(text[6..8]) && ToLower(text[6..8]) == Bin2Hex([status])
    ensures SubstrFrom(text, 8) == text[8..] && Hex2Bin(text[8..]) == Some(params) && ToLower(text[8..]) == Bin2Hex(params)
  {
    var n, o, sts, p := Bin2Hex([ncmd]), Bin2Hex(opcode), Bin2Hex([status]), Bin2Hex(params);
    LowerReply(text, ncmd, opcode, status, params);
    ReplyFields(n, o, sts, p);
    LowerSlice(text, 2, 6);
    LowerSlice(text, 6, 8);
    LowerSlice(text, 8, |text|);
    SpelledHex(text[2..6], opcode);
    SpelledHex(text[6..8], [status]);
    SpelledHex(text[8..], params);
  }

  lemma LowerReply(text: string, ncmd: byte, opcode: seq<byte>, status: byte, params: seq<byte>)
    requires Hex2Bin(text) == Some([ncmd] + opcode + [status] + params)
    ensures ToLower(text) == Bin2Hex([ncmd]) + Bin2Hex(opcode) + Bin2Hex([status]) + Bin2Hex(params)
  {
    Bin2HexOfHex2Bin(text);
    ReplyHex(ncmd, opcode, status, params);
  }

  lemma ReplyHex(ncmd: byte, opcode: seq<byte>, status: byte, params: seq<byte>)
    ensures Bin2Hex([ncmd] + opcode + [status] + params)
      == Bin2Hex([ncmd]) + Bin2Hex(opcode) + Bin2Hex([status]) + Bin2Hex(params)
  {
    Bin2HexConcat([ncmd] + opcode + [status], params);
    Bin2HexConcat([ncmd] + opcode, [status]);
    Bin2HexConcat([ncmd], opcode);
  }

  /** Where `cmdRet` finds the opcode, the status and the return parameters. */
  lemma ReplyFields(n: string, o: string, s: string, p: string)
    requires |n| == 2 && |o| == 4 && |s| == 2
    ensures var text := n + o + s + p;
      Substr(text, 2, 4) == o && Status(text, Some(0)) == s && SubstrFrom(text, 8) == p
  {
    var text := n + o + s + p;
    assert text[2..6] == o;
    assert text[6..8] == s;
    assert text[8..] == p;
  }

  /** A reply too short to hold a status fails with the unknown code `UN`. */
  lemma ShortReply(reply: string)
    requires !Falsy(reply) && |reply| <= 6
    ensures CmdResultOf(Some(reply), Some(0)).err == Some(HciError("UN", "Unknown"))
  {
    assert Status(reply, Some(0)) == "";
  }

  /** The static state of class HCI: the silence flag, and the errors it let through to the log. */
  class HciStatic {
    var silenceNext: bool
    var logged: seq<CommandResult>

    constructor()
      ensures !silenceNext && logged == []
    {
      silenceNext := false;
      logged := [];
    }

    /** `cmdSilenceNext`: the next result is not logged. */
    method CmdSilenceNext()
      modifies this
      ensures silenceNext && logged == old(logged)
    {
      silenceNext := true;
    }

    /**
     * `cmdRet`: clears the flag. A reply that is missing or falsy gives the
     * `NA` result and returns before the log (lines 94-97); an answered
     * command that failed is logged unless the flag was set (lines 108-111).
     */
    method CmdRet(reply: Option<string>, stsbyte: Option<int>) returns (res: CommandResult)
      modifies this
      ensures res == CmdResultOf(reply, stsbyte)
      ensures !silenceNext
      ensures var answered := reply.Some? && !Falsy(reply.value);
        logged == old(logged) + (if answered && res.err.Some? && !old(silenceNext) then [res] else [])
      ensures (reply.None? || Falsy(reply.value)) ==> logged == old(logged)
    {
      var silent := silenceNext;
      silenceNext := false;
      res := CmdResultOf(reply, stsbyte);
      if reply.None? || Falsy(reply.value) {
        return;
      }
      if res.err.Some? && !silent {
        logged := logged + [res];
      }
    }
  }

  // ---------------------------------------------------------------------------
  // The hcitool command line
  // ---------------------------------------------------------------------------

  /** `dechex`: a negative integer prints as its unsigned 64-bit pattern. */
  function DecHex(n: Int64): (r: string)
    ensures IsLowerHexText(r) && |r| >= 1
    ensures r[0] != '0' || r == "0"
    ensures HexDec(r) == n % TwoTo64
  {
    HexDecOfNatToHex(n % TwoTo64);
    NatToHex(n % TwoTo64)
  }

  /** `implode($sep, $parts)`. */
  function Implode(sep: string, parts: seq<string>): (r: string)
    ensures |parts| == 1 ==> r == parts[0]
  {
    if |parts| == 0 then ""
    else if |parts| == 1 then parts[0]
    else parts[0] + sep + Implode(sep, parts[1..])
  }

  /** `array_map('dechex', $params)`. */
  function DecHexAll(params: seq<Int64>): (r: seq<string>)
    ensures |r| == |params|
    ensures forall i :: 0 <= i < |params| ==> r[i] == DecHex(params[i])
  {
    seq(|params|, i requires 0 <= i < |params| => DecHex(params[i]))
  }

  /** `cmdStr`, as written. */
  function CmdStr(hci: string, ogf: Int64, ocf: Int64, params: seq<Int64>): (r: string)
  {
    var cmd := "hcitool -i " + hci + " cmd" + " 0x" + DecHex(ogf) + " 0x" + DecHex(ocf);
    if |params| == 0 then cmd else cmd + " 0x" + Implode(" 0x", DecHexAll(params))
  }

  /** Each value as one ` 0x<hex>` argument, in order: the layout `cmdStr` promises. */
  function Args(xs: seq<Int64>): (r: string)
  {
    if |xs| == 0 then "" else " 0x" + DecHex(xs[0]) + Args(xs[1..])
  }

  lemma {:induction false} ImplodeArgs(params: seq<Int64>)
    requires |params| > 0
    ensures " 0x" + Implode(" 0x", DecHexAll(params)) == Args(params)
    decreases |params|
  {
    if |params| > 1 {
      ImplodeArgs(params[1..]);
      assert DecHexAll(params)[1..] == DecHexAll(params[1..]);
    } else {
      assert params[1..] == [];
    }
  }

  /**
   * The command line is `hcitool -i <hci> cmd` and then OGF, OCF and every
   * parameter as an argument ` 0x<hex>`; with no parameters nothing follows OCF.
   */
  lemma CmdStrLayout(hci: string, ogf: Int64, ocf: Int64, params: seq<Int64>)
    ensures CmdStr(hci, ogf, ocf, params) == "hcitool -i " + hci + " cmd" + Args([ogf, ocf] + params)
  {
    var head := "hcitool -i " + hci + " cmd";
    var g, c := " 0x" + DecHex(ogf), " 0x" + DecHex(ocf);
    var tail := if |params| == 0 then "" else " 0x" + Implode(" 0x", DecHexAll(params));
    CmdStrParts(hci, ogf, ocf, params);
    if |params| > 0 {
      ImplodeArgs(params);
    } else {
      assert Args(params) == "";
    }
    ArgsConcat([ogf, ocf], params);
    ArgsPair(ogf, ocf);
    Associative3(head, g, c, tail);
  }

  lemma CmdStrParts(hci: string, ogf: Int64, ocf: Int64, params: seq<Int64>)
    ensures CmdStr(hci, ogf, ocf, params) == ("hcitool -i " + hci + " cmd") + (" 0x" + DecHex(ogf)) + (" 0x" + DecHex(ocf))
      + (if |params| == 0 then "" else " 0x" + Implode(" 0x", DecHexAll(params)))
  {
    var head := "hcitool -i " + hci + " cmd";
    var g, c := DecHex(ogf), DecHex(ocf);
    assert head + " 0x" + g + " 0x" + c == head + (" 0x" + g) + (" 0x" + c);
  }

  lemma ArgsPair(ogf: Int64, ocf: Int64)
    ensures Args([ogf, ocf]) == " 0x" + DecHex(ogf) + (" 0x" + DecHex(ocf) + "")
  {
    assert [ogf, ocf][1..] == [ocf];
    assert [ocf][1..] == [];
    assert Args([ocf]) == " 0x" + DecHex(ocf) + Args([]);
  }

  lemma Associative3(a: string, b: string, c: string, d: string)
    ensures a + b + c + d == a + ((b + (c + "")) + d)
  {
    assert c + "" == c;
  }

  lemma {:induction false} ArgsConcat(xs: seq<Int64>, ys: seq<Int64>)
    ensures Args(xs + ys) == Args(xs) + Args(ys)
    decreases |xs|
  {
    if |xs| == 0 {
      assert xs + ys == ys;
    } else {
      assert (xs + ys)[1..] == xs[1..] + ys;
      ArgsConcat(xs[1..], ys);
    }
  }

  // ---------------------------------------------------------------------------
  // Event mask
  // ---------------------------------------------------------------------------

  function Pow256(n: nat): (p: nat)
    ensures p >= 1
  {
    if n == 0 then 1 else 256 * Pow256(n - 1)
  }

  /** The low `n` bytes of `u`, least significant first. */
  function LEBytes(u: nat, n: nat): (r: seq<byte>)
    ensures |r| == n
  {
    if n == 0 then [] else [u % 256] + LEBytes(u / 256, n - 1)
  }

  /** The number whose little-endian bytes `b` are. */
  function FromLE(b: seq<byte>): (r: nat)
    ensures r < Pow256(|b|)
  {
    if |b| == 0 then 0 else b[0] + 256 * FromLE(b[1..])
  }

  lemma {:induction false} FromLEBytes(u: nat, n: nat)
    requires u < Pow256(n)
    ensures FromLE(LEBytes(u, n)) == u
    decreases n
  {
    if n > 0 {
      assert u / 256 < Pow256(n - 1);
      FromLEBytes(u / 256, n - 1);
      assert LEBytes(u, n)[1..] == LEBytes(u / 256, n - 1);
    }
  }

  lemma {:induction false} LEBytesFrom(b: seq<byte>)
    ensures LEBytes(FromLE(b), |b|) == b
    decreases |b|
  {
    if |b| > 0 {
      var x := FromLE(b[1..]);
      assert (b[0] + 256 * x) % 256 == b[0];
      assert (b[0] + 256 * x) / 256 == x;
      LEBytesFrom(b[1..]);
    }
  }

  /** `unpack('C*', pack('P', $mask))`: the mask's eight bytes, little-endian. */
  function EventMaskBytes(mask: Int64): (r: seq<byte>)
    ensures |r| == 8
    ensures FromLE(r) == mask % TwoTo64
  {
    assert Pow256(8) == TwoTo64;
    FromLEBytes(mask % TwoTo64, 8);
    LEBytes(mask % TwoTo64, 8)
  }

  /** Every eight bytes are the parameters of exactly one mask. */
  lemma EventMaskOfBytes(b: seq<byte>)
    requires |b| == 8
    ensures var u := FromLE(b);
      var mask := if u < TwoTo64 / 2 then u else u - TwoTo64;
      -0x8000_0000_0000_0000 <= mask < 0x8000_0000_0000_0000
      && EventMaskBytes(mask as Int64) == b
  {
    var u := FromLE(b);
    assert Pow256(8) == TwoTo64;
    var mask := if u < TwoTo64 / 2 then u else u - TwoTo64;
    assert mask % TwoTo64 == u;
    LEBytesFrom(b);
  }

  lemma SmallDecHex()
    ensures DecHex(0x03) == "3" && DecHex(0x0001) == "1"
  {
  }

  /** The `hcitool` line `setEventMask` runs: OGF 3, OCF 1, the mask bytes. */
  function SetEventMaskCmd(hci: string, mask: Int64): (r: string)
    ensures r == "hcitool -i " + hci + " cmd 0x3 0x1" + Args(EventMaskBytes(mask))
  {
    var params: seq<Int64> := EventMaskBytes(mask);
    CmdStrLayout(hci, 0x03, 0x0001, params);
    SmallDecHex();
    CmdStr(hci, 0x03, 0x0001, params)
  }

  // ---------------------------------------------------------------------------
  // The hcitool reply
  // ---------------------------------------------------------------------------

  /** The line that starts the Command Complete event in `hcitool` output. */
  const CommandCompleteLine := "> HCI Event: 0x0e"

  /** `preg_replace('/[^A-F0-9]+/i', '', $s)`: only the hex digits remain. */
  function HexOnly(s: string): (r: string)
    ensures IsHexText(r) && |r| <= |s|
    ensures IsHexText(s) ==> r == s
    decreases |s|
  {
    if |s| == 0 then ""
    else
      var init := HexOnly(s[..|s| - 1]);
      var c := s[|s| - 1];
      assert IsHexText(s) ==> IsHexText(s[..|s| - 1]);
      assert IsHexText(init + (if IsHexDigit(c) then [c] else [])) by {
        var t := init + (if IsHexDigit(c) then [c] else []);
        assert forall i :: 0 <= i < |init| ==> t[i] == init[i];
      }
      assert IsHexText(s) ==> s == s[..|s| - 1] + [c];
      init + (if IsHexDigit(c) then [c] else [])
  }

  /** A single character stays exactly when it is a hex digit. */
  lemma HexOnlyChar(c: char)
    ensures HexOnly([c]) == if IsHexDigit(c) then [c] else []
  {
    assert [c][..0] == [];
  }

  /** Cleaning works piece by piece: the hex digits of a line are kept, in order. */
  lemma {:induction false} HexOnlyConcat(a: string, b: string)
    ensures HexOnly(a + b) == HexOnly(a) + HexOnly(b)
    decreases |b|
  {
    if |b| == 0 {
      assert a + b == a;
    } else {
      var b' := b[..|b| - 1];
      var c := b[|b| - 1];
      assert (a + b)[..|a + b| - 1] == a + b';
      assert (a + b)[|a + b| - 1] == c;
      HexOnlyConcat(a, b');
      var t := if IsHexDigit(c) then [c] else [];
      assert HexOnly(a) + HexOnly(b') + t == HexOnly(a) + (HexOnly(b') + t);
    }
  }

  /** The hex digits of the lines, in order. */
  function HexOnlyAll(lines: seq<string>): (r: string)
    ensures IsHexText(r)
  {
    if |lines| == 0 then ""
    else
      var a, b := HexOnlyAll(lines[..|lines| - 1]), HexOnly(lines[|lines| - 1]);
      assert forall i :: 0 <= i < |a| ==> (a + b)[i] == a[i];
      assert forall i :: 0 <= i < |b| ==> (a + b)[|a| + i] == b[i];
      a + b
  }

  predicate IsEventLine(line: string) {
    StartsWith(line, CommandCompleteLine)
  }

  /** The index of the first line that starts the Command Complete event. */
  function ReplyStart(lines: seq<string>): (r: Option<nat>)
    ensures r.None? <==> forall i :: 0 <= i < |lines| ==> !IsEventLine(lines[i])
    ensures r.Some? ==> (r.value < |lines| && IsEventLine(lines[r.value])
      && forall i :: 0 <= i < r.value ==> !IsEventLine(lines[i]))
  {
    if |lines| == 0 then None
    else
      assert forall i :: 0 <= i < |lines| - 1 ==> lines[..|lines| - 1][i] == lines[i];
      match ReplyStart(lines[..|lines| - 1])
      case Some(i) => Some(i)
      case None => if IsEventLine(lines[|lines| - 1]) then Some(|lines| - 1) else None
  }

  /** `$cmdRet` after the lines: null until the event line, then the hex of every later line. */
  function Scan(lines: seq<string>): (r: Option<string>)
    ensures r.None? <==> forall i :: 0 <= i < |lines| ==> !IsEventLine(lines[i])
    ensures r.Some? ==> IsHexText(r.value)
  {
    match ReplyStart(lines)
    case None => None
    case Some(i) => Some(HexOnlyAll(lines[i + 1..]))
  }

  /** The reply `cmd` returns: `$cmdRet ?: ''`. */
  function ReplyText(lines: seq<string>): (r: string)
    ensures IsHexText(r)
    ensures (forall i :: 0 <= i < |lines| ==> !IsEventLine(lines[i])) ==> r == ""
  {
    var t := Scan(lines).GetOr("");
    if Falsy(t) then "" else t
  }

  lemma ScanStep(lines: seq<string>, line: string)
    ensures Scan(lines + [line]) ==
      if Scan(lines).Some? then Some(Scan(lines).value + HexOnly(line))
      else if IsEventLine(line) then Some("")
      else None
  {
    var all := lines + [line];
    ReplyStartStep(lines, line);
    match ReplyStart(lines)
    case Some(i) =>
      DropAppend(lines, line, i + 1);
      HexOnlyAllStep(lines[i + 1..], line);
    case None =>
      if IsEventLine(line) {
        assert all[|lines| + 1..] == [];
      }
  }

  lemma ReplyStartStep(lines: seq<string>, line: string)
    ensures ReplyStart(lines + [line]) ==
      if ReplyStart(lines).Some? then ReplyStart(lines)
      else if IsEventLine(line) then Some(|lines|)
      else None
  {
    var all := lines + [line];
    assert all[..|all| - 1] == lines;
  }

  lemma DropAppend(lines: seq<string>, line: string, k: nat)
    requires k <= |lines|
    ensures (lines + [line])[k..] == lines[k..] + [line]
  {
  }

  lemma HexOnlyAllStep(lines: seq<string>, line: string)
    ensures HexOnlyAll(lines + [line]) == HexOnlyAll(lines) + HexOnly(line)
  {
    var all := lines + [line];
    assert all[..|all| - 1] == lines;
  }

  /** The extraction loop of `cmd`. */
  method ExtractReply(lines: seq<string>) returns (reply: string)
    ensures reply == ReplyText(lines)
  {
    var cmdRet: Option<string> := None;
    for k := 0 to |lines|
      invariant cmdRet == Scan(lines[..k])
    {
      ScanStep(lines[..k], lines[k]);
      assert lines[..k + 1] == lines[..k] + [lines[k]];
      if cmdRet.Some? {
        cmdRet := Some(cmdRet.value + HexOnly(lines[k]));
      } else if StartsWith(lines[k], CommandCompleteLine) {
        cmdRet := Some("");
      }
    }
    assert lines[..|lines|] == lines;
    reply := cmdRet.GetOr("");
    if Falsy(reply) {
      reply := "";
    }
  }

  /**
   * Lines before the event line are ignored; the reply is the hex digits of
   * the lines after it, or `''` when they read as falsy.
   */
  lemma ReplyAfterEventLine(before: seq<string>, event: string, after: seq<string>)
    requires forall i :: 0 <= i < |before| ==> !IsEventLine(before[i])
    requires IsEventLine(event)
    ensures var h := HexOnlyAll(after);
      ReplyText(before + [event] + after) == if Falsy(h) then "" else h
  {
    var lines := before + [event] + after;
    var r := ReplyStart(lines);
    assert lines[|before|] == event;
    assert forall i :: 0 <= i < |before| ==> lines[i] == before[i];
    assert r == Some(|before|);
    assert lines[|before| + 1..] == after;
  }

  // ---------------------------------------------------------------------------
  // The hciconfig adapter list
  // ---------------------------------------------------------------------------

  predicate IsNameChar(c: char) {
    !IsSpace(c) && c != ':'
  }

  /** How many name characters `s` starts with. */
  function NameRun(s: string, from: nat): (n: nat)
    requires from <= |s|
    ensures from + n <= |s|
    ensures forall i :: from <= i < from + n ==> IsNameChar(s[i])
    ensures from + n < |s| ==> !IsNameChar(s[from + n])
    decreases |s| - from
  {
    if from == |s| || !IsNameChar(s[from]) then 0 else 1 + NameRun(s, from + 1)
  }

  /** `/^([^\s\:]+)\:/`: the interface name at the head of an `hciconfig` block. */
  function HeaderName(line: string): (r: Option<string>)
    ensures r.Some? ==> (|r.value| > 0 && StartsWith(line, r.value + ":")
      && forall i :: 0 <= i < |r.value| ==> IsNameChar(r.value[i]))
  {
    var n := NameRun(line, 0);
    if 0 < n < |line| && line[n] == ':' then
      assert line[..n + 1] == line[..n] + ":";
      Some(line[..n])
    else None
  }

  /** A name of name characters followed by a colon is read back whatever follows. */
  lemma HeaderNameOf(name: string, rest: string)
    requires |name| > 0 && forall i :: 0 <= i < |name| ==> IsNameChar(name[i])
    ensures HeaderName(name + ":" + rest) == Some(name)
  {
    var line := name + ":" + rest;
    assert forall i :: 0 <= i < |name| ==> line[i] == name[i];
    assert line[|name|] == ':';
    assert NameRun(line, 0) == |name|;
    assert line[..|name|] == name;
  }

  /** `(?:[a-f0-9]{2})(?:\:[a-f0-9]{2}){5}` without regard to case: six hex pairs joined by colons. */
  predicate IsMac(s: string) {
    |s| == 17 && forall i :: 0 <= i < 17 ==> if i % 3 == 2 then s[i] == ':' else IsHexDigit(s[i])
  }

  /** `BD\sAddress\:\s+<address>` matched at index `p`, ignoring case: the address it captures. */
  function AddressAt(line: string, p: nat): (r: Option<string>)
    ensures r.Some? ==> IsMac(r.value)
  {
    if p + 12 > |line| then None
    else if !(ToUpper(line[p..p + 2]) == "BD" && IsSpace(line[p + 2])
              && ToUpper(line[p + 3..p + 11]) == "ADDRESS:" && IsSpace(line[p + 11])) then None
    else
      var q := p + 11 + SpaceRun(line, p + 11);
      if q + 17 <= |line| && IsMac(line[q..q + 17]) then Some(line[q..q + 17]) else None
  }

  /** The leftmost match from index `from` on: what `preg_match` captures. */
  function AddressIn(line: string, from: nat): (r: Option<string>)
    ensures r.Some? ==> IsMac(r.value)
    ensures r.None? <==> forall p :: from <= p ==> AddressAt(line, p).None?
    ensures r.Some? ==> exists p :: from <= p && AddressAt(line, p) == r && forall q :: from <= q < p ==> AddressAt(line, q).None?
    decreases |line| - from
  {
    if from + 12 > |line| then None
    else if AddressAt(line, from).Some? then AddressAt(line, from)
    else AddressIn(line, from + 1)
  }

  /** The address line `hciconfig` prints: its address is found whatever follows it. */
  lemma AddressOfHciconfigLine(mac: string, rest: string)
    requires IsMac(mac)
    ensures AddressIn("\tBD Address: " + mac + rest, 0) == Some(mac)
  {
    var line := "\tBD Address: " + mac + rest;
    HciconfigAddressAt(mac, rest, line);
    assert AddressIn(line, 0) == AddressIn(line, 1);
  }

  /** The match on that line fails at the tab and succeeds right after it. */
  lemma HciconfigAddressAt(mac: string, rest: string, line: string)
    requires IsMac(mac) && line == "\tBD Address: " + mac + rest
    ensures AddressAt(line, 0).None? && AddressAt(line, 1) == Some(mac)
  {
    var prefix := "\tBD Address: ";
    assert forall i :: 0 <= i < |prefix| ==> line[i] == prefix[i];
    assert forall i :: 0 <= i < 17 ==> line[13 + i] == mac[i];
    assert AddressAt(line, 0).None? by {
      assert ToUpper(line[0..2])[0] == '\t';
    }
    assert ToUpper(line[1..3]) == "BD";
    assert ToUpper(line[4..12]) == "ADDRESS:";
    assert SpaceRun(line, 12) == 1 by {
      assert !IsSpace(line[13]);
    }
    assert line[13..30] == mac;
  }

  /** What the adapter loop carries: the pending interface name and the adapters so far. */
  datatype ListScan = ListScan(hci: string, adapters: Dict<Adapter>)

  /** One line of the loop in `adapters`. */
  function ListStep(st: ListScan, line: string): (r: ListScan)
  {
    if Falsy(st.hci) then
      match HeaderName(line)
      case Some(name) => ListScan(name, st.adapters)
      case None => st
    else
      match AddressIn(line, 0)
      case None => st
      case Some(mac) => ListScan("", Put(st.adapters, st.hci, NewAdapter(st.hci, mac)))
  }

  function ListFrom(st: ListScan, lines: seq<string>): (r: ListScan)
  {
    if |lines| == 0 then st else ListStep(ListFrom(st, lines[..|lines| - 1]), lines[|lines| - 1])
  }

  /** `adapters`: null when the tool gave no output or no lines. */
  function AdaptersOf(out: Option<seq<string>>): (r: Option<Dict<Adapter>>)
    ensures r.None? <==> out.None? || |out.value| == 0
  {
    if out.None? || |out.value| == 0 then None else Some(ListFrom(ListScan("", []), out.value).adapters)
  }

  /** The loop of `adapters`. */
  method ListAdapters(out: Option<seq<string>>) returns (r: Option<Dict<Adapter>>)
    ensures r == AdaptersOf(out)
  {
    if out.None? || |out.value| == 0 {
      return None;
    }
    var lines := out.value;
    var adapters: Dict<Adapter> := [];
    var hci := "";
    for k := 0 to |lines|
      invariant ListScan(hci, adapters) == ListFrom(ListScan("", []), lines[..k])
    {
      assert lines[..k + 1][..k] == lines[..k];
      var line := lines[k];
      if Falsy(hci) {
        var name := HeaderName(line);
        if name.Some? {
          hci := name.value;
        }
        continue;
      }
      var mac := AddressIn(line, 0);
      if mac.None? {
        continue;
      }
      adapters := Put(adapters, hci, NewAdapter(hci, mac.value));
      hci := "";
    }
    assert lines[..|lines|] == lines;
    r := Some(adapters);
  }

  /** The adapters so far carry the name they are stored under, lower-cased, and an address. */
  ghost predicate WellFormed(d: Dict<Adapter>) {
    UniqueKeys(d)
    && forall i :: 0 <= i < |d| ==> d[i].1.hci == ToLower(d[i].0) && IsMac(d[i].1.mac)
  }

  lemma UpperMac(mac: string)
    requires IsMac(mac)
    ensures IsMac(ToUpper(mac))
  {
  }

  lemma PutWellFormed(d: Dict<Adapter>, hci: string, mac: string)
    requires WellFormed(d) && IsMac(mac)
    ensures WellFormed(Put(d, hci, NewAdapter(hci, mac)))
  {
    PutUnique(d, hci, NewAdapter(hci, mac));
    PutEntries(d, hci, NewAdapter(hci, mac));
    UpperMac(mac);
  }

  /** Every listed adapter is stored under its interface name and has a well-formed address. */
  lemma {:induction false} AdaptersWellFormed(lines: seq<string>)
    ensures WellFormed(ListFrom(ListScan("", []), lines).adapters)
    ensures IsNameChars(ListFrom(ListScan("", []), lines).hci)
    decreases |lines|
  {
    if |lines| > 0 {
      AdaptersWellFormed(lines[..|lines| - 1]);
      var st := ListFrom(ListScan("", []), lines[..|lines| - 1]);
      var line := lines[|lines| - 1];
      if !Falsy(st.hci) && AddressIn(line, 0).Some? {
        PutWellFormed(st.adapters, st.hci, AddressIn(line, 0).value);
      }
    }
  }

  predicate IsNameChars(s: string) {
    forall i :: 0 <= i < |s| ==> IsNameChar(s[i])
  }

  /**
   * Pairing: with no name pending, a header line names the adapter, lines
   * without an address leave it pending, and the next address line stores
   * the adapter under that name.
   */
  lemma AdapterBlock(st: ListScan, header: string, between: seq<string>, address: string)
    requires Falsy(st.hci)
    requires HeaderName(header).Some? && !Falsy(HeaderName(header).value)
    requires forall i :: 0 <= i < |between| ==> AddressIn(between[i], 0).None?
    requires AddressIn(address, 0).Some?
    ensures var name, mac := HeaderName(header).value, AddressIn(address, 0).value;
      ListFrom(st, [header] + between + [address])
        == ListScan("", Put(st.adapters, name, NewAdapter(name, mac)))
  {
    var name := HeaderName(header).value;
    PendingStays(st, header, between);
    var lines := [header] + between + [address];
    assert lines[..|lines| - 1] == [header] + between;
  }

  lemma {:induction false} PendingStays(st: ListScan, header: string, between: seq<string>)
    requires Falsy(st.hci)
    requires HeaderName(header).Some? && !Falsy(HeaderName(header).value)
    requires forall i :: 0 <= i < |between| ==> AddressIn(between[i], 0).None?
    ensures ListFrom(st, [header] + between) == ListScan(HeaderName(header).value, st.adapters)
    decreases |between|
  {
    var lines := [header] + between;
    if |between| == 0 {
      assert lines[..0] == [];
    } else {
      var init := between[..|between| - 1];
      PendingStays(st, header, init);
      assert lines[..|lines| - 1] == [header] + init;
    }
  }

  // ---------------------------------------------------------------------------
  // Adapter lookup
  // ---------------------------------------------------------------------------

  /** The loop's test, for a query already lower-cased. */
  predicate Matches(query: string, a: Adapter) {
    query == a.hci || query == ToLower(a.mac)
  }

  /** The first adapter the query matches. */
  function FirstMatch(query: string, adapters: seq<Adapter>): (r: Option<Adapter>)
    ensures r.None? <==> forall i :: 0 <= i < |adapters| ==> !Matches(query, adapters[i])
    ensures r.Some? ==> exists i :: (0 <= i < |adapters| && adapters[i] == r.value
      && Matches(query, adapters[i]) && forall j :: 0 <= j < i ==> !Matches(query, adapters[j]))
  {
    if |adapters| == 0 then None
    else if Matches(query, adapters[0]) then Some(adapters[0])
    else
      var r := FirstMatch(query, adapters[1..]);
      assert forall i :: 1 <= i < |adapters| ==> adapters[i] == adapters[1..][i - 1];
      r
  }

  /**
   * `adapter`: the given list, or when it is empty the list `adapters`
   * produces (`listed`); null when that is null or nothing matches.
   */
  function LookupAdapter(query: string, given: seq<Adapter>, listed: Option<Dict<Adapter>>): (r: Option<Adapter>)
    ensures |given| > 0 ==> r == FirstMatch(ToLower(query), given)
    ensures |given| == 0 && listed.None? ==> r.None?
    ensures |given| == 0 && listed.Some? ==> r == FirstMatch(ToLower(query), Values(listed.value))
  {
    if |given| > 0 then FirstMatch(ToLower(query), given)
    else if listed.None? then None
    else FirstMatch(ToLower(query), Values(listed.value))
  }

  /** The query is read without regard to case. */
  lemma LookupIgnoresCase(query: string, given: seq<Adapter>, listed: Option<Dict<Adapter>>)
    ensures LookupAdapter(ToUpper(query), given, listed) == LookupAdapter(query, given, listed)
  {
    LowerOfUpper(query);
  }

  /** An adapter made by the constructor is found by its name or its address, in any case. */
  lemma LookupFinds(hci: string, mac: string, given: seq<Adapter>, listed: Option<Dict<Adapter>>)
    requires NewAdapter(hci, mac) in given
    ensures LookupAdapter(hci, given, listed).Some?
    ensures LookupAdapter(mac, given, listed).Some?
  {
    var a := NewAdapter(hci, mac);
    LowerOfUpper(mac);
    assert Matches(ToLower(hci), a);
    assert Matches(ToLower(mac), a);
  }
}
