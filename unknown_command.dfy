/**
 * The wildcard command type of src/HCIDump/Command/Unknown.php: it keeps the
 * base class's default `ogf`/`ocf`, so its identity is `'0000'`, and its
 * `_parse` accepts any packet whose opcode bytes decode.
 */
module UnknownCommand {
  import opened Wrappers
  import opened Text
  import opened Commands

  /**
   * `Unknown::_parse`: rejects only an opcode of fewer than two bytes;
   * otherwise a new command whose `ogf`/`ocf` are the decoded fields as hex,
   * two and four digits, that encode back to the opcode seen.
   */
  function ParseUnknown(opcode: seq<byte>, params: seq<byte>): (r: Option<Command>)
    ensures r.None? <==> |opcode| < 2
    ensures r.Some? ==> (|r.value.ogf| == 2 && |r.value.ocf| == 4
      && HexOgfOcfToOpcode(r.value.ogf, r.value.ocf) == Some(Bin2Hex(opcode[..2])))
  {
    match BinOpcodeToOgfOcf(opcode)
    case None => None
    case Some(f) =>
      var cmd := Command(Bin2Hex(f.ogf), Bin2Hex(f.ocf), "");
      assert HexOgfOcfToOpcode(cmd.ogf, cmd.ocf) == Some(Bin2Hex(opcode[..2])) by {
        Hex2BinOfBin2Hex(f.ogf);
        Hex2BinOfBin2Hex(f.ocf);
        assert BinOpcodeToOgfOcf(opcode[..2]) == Some(f);
        BinOpcodeRoundTrip(opcode[..2]);
      }
      Some(cmd)
  }

  /** The Unknown class: default fields, its own `_parse`, the base `_parseReturn`. */
  const UnknownClass: CommandClass := CommandClass("00", "0000", ParseUnknown, BaseParseReturn)

  /** The Unknown command's identity is the wildcard `'0000'`. */
  lemma UnknownIsWildcard()
    ensures Opcode(UnknownClass) == "0000"
  {
    DefaultOpcodeIsWildcard(UnknownClass);
  }

  /**
   * Through the final `parse`, an Unknown command carries the fields it
   * decoded and the payload as hex; its `parseReturn` always rejects.
   */
  lemma UnknownParseResult(opcode: seq<byte>, params: seq<byte>)
    requires |opcode| >= 2
    ensures Parse(UnknownClass, opcode, params).Some?
    ensures var c := Parse(UnknownClass, opcode, params).value;
      var f := BinOpcodeToOgfOcf(opcode).value;
      c == Command(Bin2Hex(f.ogf), Bin2Hex(f.ocf), Bin2Hex(params))
    ensures ParseReturn(UnknownClass, params).None?
  {
  }
}
