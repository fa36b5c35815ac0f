/**
 * The command packet type of src/HCIDump/Command.php: the OGF/OCF opcode
 * codec (Bluetooth Core Specification v5.4, Vol 4, Part E, section 5.4.1:
 * a 16-bit opcode, sent little-endian, whose upper 6 bits are the OGF and
 * whose lower 10 bits are the OCF), the per-class opcode identity and the
 * final `parse`/`parseReturn` wrappers around a class's own parser.
 */
module Commands {
  import opened Wrappers
  import opened Text

  /** A parsed command: the public fields `ogf`, `ocf` and `params` of a Command object. */
  datatype Command = Command(ogf: string, ocf: string, params: string)

  /** The two opcode fields, as binary strings or as hex text. */
  datatype Fields<T> = Fields(ogf: T, ocf: T)

  /**
   * A concrete Command class: the defaults of its `ogf`/`ocf` properties and
   * its own `_parse` and `_parseReturn`.
   */
  datatype CommandClass = CommandClass(
    ogf: string,
    ocf: string,
    parseFn: (seq<byte>, seq<byte>) -> Option<Command>,
    parseReturnFn: seq<byte> -> Option<Command>)

  /** `unpack('v', ...)`: the first two bytes as a little-endian number. */
  function LE16(b: seq<byte>): (v: nat)
    requires |b| >= 2
    ensures v < 0x1_0000
    ensures v % 256 == b[0] as int && v / 256 == b[1] as int
  {
    b[0] as int + 256 * (b[1] as int)
  }

  /** `unpack('n', ...)`: the first two bytes as a big-endian number. */
  function BE16(b: seq<byte>): (v: nat)
    requires |b| >= 2
    ensures v < 0x1_0000
    ensures v / 256 == b[0] as int && v % 256 == b[1] as int
  {
    256 * (b[0] as int) + b[1] as int
  }

  /** `ord`: the first byte, 0 for the empty string. */
  function Ord(b: seq<byte>): byte {
    if |b| == 0 then 0 else b[0]
  }

  /** PHP's `|` on non-negative integers. */
  function BitOr(a: nat, b: nat): nat
    decreases a
  {
    if a == 0 then b
    else if b == 0 then a
    else 2 * BitOr(a / 2, b / 2) + (if a % 2 == 1 || b % 2 == 1 then 1 else 0)
  }

  function Pow2(k: nat): (p: nat)
    ensures p >= 1
  {
    if k == 0 then 1 else 2 * Pow2(k - 1)
  }

  /** Or-ing a number below 2^k into a multiple of 2^k is adding it. */
  lemma {:induction false} BitOrDisjoint(a: nat, c: nat, k: nat)
    requires c < Pow2(k)
    ensures BitOr(a * Pow2(k), c) == a * Pow2(k) + c
    decreases k
  {
    if a == 0 || c == 0 {
    } else {
      assert k > 0;
      var h := a * Pow2(k - 1);
      assert a * Pow2(k) == 2 * h;
      assert (2 * h) / 2 == h && (2 * h) % 2 == 0;
      BitOrDisjoint(a, c / 2, k - 1);
    }
  }

  lemma Pow2At10()
    ensures Pow2(10) == 1024
  {
  }

  /**
   * `binOpcodeToOgfOcf`: the first two bytes read little-endian; OGF is the
   * top 6 bits as one byte, OCF the low 10 bits as two big-endian bytes.
   * Fewer than two bytes give null.
   */
  function BinOpcodeToOgfOcf(opcode: seq<byte>): (r: Option<Fields<seq<byte>>>)
    ensures r.None? <==> |opcode| < 2
    ensures r.Some? ==> |r.value.ogf| == 1 && |r.value.ocf| == 2
    ensures r.Some? ==> (r.value.ogf[0] < 64 && BE16(r.value.ocf) < 1024
      && 1024 * r.value.ogf[0] + BE16(r.value.ocf) == LE16(opcode))
  {
    if |opcode| < 2 then None
    else
      var opc := LE16(opcode);
      Some(Fields([opc / 1024], [(opc % 1024) / 256, opc % 256]))
  }

  /**
   * `binOgfOcfToOpcode`: `pack('v', (ord(ogf) << 10) | ocf)`, where `pack`
   * keeps the low 16 bits. Null when OCF has fewer than two bytes.
   */
  function BinOgfOcfToOpcode(ogf: seq<byte>, ocf: seq<byte>): (r: Option<seq<byte>>)
    ensures r.None? <==> |ocf| < 2
    ensures r.Some? ==> |r.value| == 2
    ensures r.Some? && Ord(ogf) < 64 && BE16(ocf) < 1024 ==>
      LE16(r.value) == 1024 * Ord(ogf) + BE16(ocf)
  {
    if |ocf| < 2 then None
    else
      var opc := BitOr(Ord(ogf) * 1024, BE16(ocf)) % 65536;
      PackLow16(Ord(ogf), BE16(ocf));
      Some([opc % 256, opc / 256])
  }

  lemma PackLow16(g: byte, c: nat)
    ensures var opc := BitOr(g * 1024, c) % 65536;
      opc % 256 + 256 * (opc / 256) == opc
    ensures g < 64 && c < 1024 ==> BitOr(g * 1024, c) % 65536 == 1024 * g + c
  {
    if g < 64 && c < 1024 {
      Pow2At10();
      BitOrDisjoint(g, c, 10);
      assert BitOr(g * 1024, c) == 1024 * g + c;
      assert 1024 * g + c < 65536;
    }
  }

  /** Decoding an opcode and encoding the fields again gives the opcode back. */
  lemma BinOpcodeRoundTrip(opcode: seq<byte>)
    requires |opcode| == 2
    ensures BinOpcodeToOgfOcf(opcode).Some?
    ensures var f := BinOpcodeToOgfOcf(opcode).value;
      BinOgfOcfToOpcode(f.ogf, f.ocf) == Some(opcode)
  {
    var f := BinOpcodeToOgfOcf(opcode).value;
    assert Ord(f.ogf) == f.ogf[0];
    var r := BinOgfOcfToOpcode(f.ogf, f.ocf).value;
    assert LE16(r) == LE16(opcode);
    LE16Injective(r, opcode);
  }

  lemma LE16Injective(a: seq<byte>, b: seq<byte>)
    requires |a| == 2 && |b| == 2 && LE16(a) == LE16(b)
    ensures a == b
  {
    assert a[1] == LE16(a) / 256 && b[1] == LE16(b) / 256;
  }

  /** Encoding a 6-bit OGF and a 10-bit OCF and decoding the opcode gives the fields back. */
  lemma BinFieldsRoundTrip(ogf: seq<byte>, ocf: seq<byte>)
    requires |ogf| == 1 && |ocf| == 2
    requires ogf[0] < 64 && BE16(ocf) < 1024
    ensures BinOgfOcfToOpcode(ogf, ocf).Some?
    ensures BinOpcodeToOgfOcf(BinOgfOcfToOpcode(ogf, ocf).value) == Some(Fields(ogf, ocf))
  {
    var opc := BinOgfOcfToOpcode(ogf, ocf).value;
    var f := BinOpcodeToOgfOcf(opc).value;
    assert 1024 * f.ogf[0] + BE16(f.ocf) == 1024 * ogf[0] + BE16(ocf);
    assert f.ogf[0] == ogf[0];
    assert BE16(f.ocf) == BE16(ocf);
    assert f.ocf[0] == ocf[0] && f.ocf[1] == ocf[1];
    assert f.ogf == ogf && f.ocf == ocf;
  }

  /**
   * `hexOpcodeToOgfOcf`: null for odd-length or non-hex text and for fewer
   * than two bytes; otherwise the fields as lower-case hex: OGF two digits,
   * OCF four.
   */
  function HexOpcodeToOgfOcf(opcode: string): (r: Option<Fields<string>>)
    ensures r.Some? <==> Hex2Bin(opcode).Some? && |opcode| >= 4
    ensures r.Some? ==> (|r.value.ogf| == 2 && |r.value.ocf| == 4
      && IsLowerHexText(r.value.ogf) && IsLowerHexText(r.value.ocf))
    ensures r.Some? ==> Hex2Bin(r.value.ogf).Some? && Hex2Bin(r.value.ocf).Some?
    ensures r.Some? ==>
      var g := Hex2Bin(r.value.ogf).value[0];
      var c := BE16(Hex2Bin(r.value.ocf).value);
      g < 64 && c < 1024 && 1024 * g + c == LE16(Hex2Bin(opcode).value)
  {
    match Hex2Bin(opcode)
    case None => None
    case Some(bin) =>
      match BinOpcodeToOgfOcf(bin)
      case None => None
      case Some(f) =>
        Hex2BinOfBin2Hex(f.ogf);
        Hex2BinOfBin2Hex(f.ocf);
        Some(Fields(Bin2Hex(f.ogf), Bin2Hex(f.ocf)))
  }

  /**
   * `hexOgfOcfToOpcode`: null when either field is odd-length or non-hex, or
   * OCF is under two bytes; otherwise the opcode in wire order as four
   * lower-case hex digits.
   */
  function HexOgfOcfToOpcode(ogf: string, ocf: string): (r: Option<string>)
    ensures r.Some? <==> Hex2Bin(ogf).Some? && Hex2Bin(ocf).Some? && |ocf| >= 4
    ensures r.Some? ==> |r.value| == 4 && IsLowerHexText(r.value)
  {
    match Hex2Bin(ogf)
    case None => None
    case Some(g) =>
      match Hex2Bin(ocf)
      case None => None
      case Some(c) =>
        match BinOgfOcfToOpcode(g, c)
        case None => None
        case Some(opc) => Some(Bin2Hex(opc))
  }

  /** From hex text and back: the four opcode digits come back in lower case. */
  lemma HexOpcodeRoundTrip(opcode: string)
    requires |opcode| == 4 && IsHexText(opcode)
    ensures HexOpcodeToOgfOcf(opcode).Some?
    ensures var f := HexOpcodeToOgfOcf(opcode).value;
      HexOgfOcfToOpcode(f.ogf, f.ocf) == Some(ToLower(opcode))
  {
    var bin := Hex2Bin(opcode).value;
    var f := BinOpcodeToOgfOcf(bin).value;
    BinOpcodeRoundTrip(bin);
    Hex2BinOfBin2Hex(f.ogf);
    Hex2BinOfBin2Hex(f.ocf);
    Bin2HexOfHex2Bin(opcode);
  }

  /**
   * `getOpcode`: the identity every instance of a class shares, fixed on the
   * first construction from the class's default `ogf`/`ocf` (nothing can
   * change them before the final constructor runs), and `'0000'` when they do
   * not encode.
   */
  function Opcode(cls: CommandClass): (r: string)
    ensures |r| == 4 && IsLowerHexText(r)
    ensures HexOgfOcfToOpcode(cls.ogf, cls.ocf).None? ==> r == "0000"
  {
    match HexOgfOcfToOpcode(cls.ogf, cls.ocf)
    case None => "0000"
    case Some(opc) => if Falsy(opc) then "0000" else opc
  }

  /**
   * A class whose defaults are a 6-bit OGF and a 10-bit OCF has as identity
   * the opcode bytes in wire order: low byte first.
   */
  lemma OpcodeIsWireOrder(cls: CommandClass, g: byte, c: nat)
    requires Hex2Bin(cls.ogf) == Some([g]) && g < 64
    requires c < 1024 && Hex2Bin(cls.ocf) == Some([c / 256, c % 256])
    ensures Hex2Bin(Opcode(cls)) == Some([(1024 * g + c) % 256, (1024 * g + c) / 256])
  {
    var opc := BinOgfOcfToOpcode([g], [c / 256, c % 256]).value;
    assert LE16(opc) == 1024 * g + c;
    Hex2BinOfBin2Hex(opc);
  }

  /** The class defaults `ogf = '00'`, `ocf = '0000'` give the wildcard identity `'0000'`. */
  lemma DefaultOpcodeIsWildcard(cls: CommandClass)
    requires cls.ogf == "00" && cls.ocf == "0000"
    ensures Opcode(cls) == "0000"
  {
    HexPairs("00", [0]);
    HexPairs("0000", [0, 0]);
    assert BinOgfOcfToOpcode([0], [0, 0]) == Some([0, 0]);
  }

  /** HCI_Reset: OGF `'03'`, OCF `'0003'` is opcode 0x0C03, written `'030c'`. */
  lemma ResetOpcode(cls: CommandClass)
    requires cls.ogf == "03" && cls.ocf == "0003"
    ensures Opcode(cls) == "030c"
  {
    ResetFields();
    ResetPacked();
    ResetPrinted();
  }

  /** `'03'` and `'0003'` decode to the bytes 0x03 and 0x00, 0x03. */
  lemma ResetFields()
    ensures Hex2Bin("03") == Some([3]) && Hex2Bin("0003") == Some([0, 3])
  {
    HexPairs("03", [3]);
    HexPairs("00", [0]);
    assert "0003" == "00" + "03";
    Hex2BinConcat("00", "03");
    var zero: seq<byte>, three: seq<byte> := [0], [3];
    assert zero + three == [0, 3];
  }

  /** OGF 3 shifted by ten bits, or-ed with OCF 3, is 0x0C03, low byte first. */
  lemma ResetPacked()
    ensures BinOgfOcfToOpcode([3], [0, 3]) == Some([3, 12])
  {
    PackLow16(3, 3);
    assert BinOgfOcfToOpcode([3], [0, 3]).value == [3, 12];
  }

  /** The bytes 0x03, 0x0C print as `030c`. */
  lemma ResetPrinted()
    ensures Bin2Hex([3, 12]) == "030c"
  {
    Bin2HexConcat([3], [12]);
    SmallByteHex(3);
    SmallByteHex(12);
    var one: seq<byte>, twelve: seq<byte> := [3], [12];
    assert one + twelve == [3, 12];
  }

  /**
   * The final `parse`: null exactly when the class's `_parse` rejects;
   * otherwise that result with `params` set to the payload's hex.
   */
  function Parse(cls: CommandClass, opcode: seq<byte>, params: seq<byte>): (r: Option<Command>)
    ensures r.None? <==> cls.parseFn(opcode, params).None?
    ensures r.Some? ==> (r.value.params == Bin2Hex(params)
      && r.value.ogf == cls.parseFn(opcode, params).value.ogf
      && r.value.ocf == cls.parseFn(opcode, params).value.ocf)
  {
    match cls.parseFn(opcode, params)
    case None => None
    case Some(cmd) => Some(cmd.(params := Bin2Hex(params)))
  }

  /** The final `parseReturn`: the class's `_parseReturn` result, null passed through. */
  function ParseReturn(cls: CommandClass, params: seq<byte>): (r: Option<Command>)
    ensures r.None? <==> cls.parseReturnFn(params).None?
    ensures r.Some? ==> r == cls.parseReturnFn(params)
  {
    match cls.parseReturnFn(params)
    case None => None
    case Some(cmd) => Some(cmd)
  }

  /** The base class's `_parse`: rejects every packet. */
  function BaseParse(opcode: seq<byte>, params: seq<byte>): (r: Option<Command>)
    ensures r.None?
  {
    None
  }

  /** The base class's `_parseReturn`: rejects every reply. */
  function BaseParseReturn(params: seq<byte>): (r: Option<Command>)
    ensures r.None?
  {
    None
  }

  /** A class that keeps the base `_parse` and `_parseReturn` never yields a command. */
  lemma BaseClassRejects(cls: CommandClass, opcode: seq<byte>, params: seq<byte>)
    requires cls.parseFn == BaseParse && cls.parseReturnFn == BaseParseReturn
    ensures Parse(cls, opcode, params).None? && ParseReturn(cls, params).None?
  {
  }
}
