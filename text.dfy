/**
 * The PHP string primitives the library relies on, stated over Dafny strings:
 * bytes of a binary string, `hex2bin`/`bin2hex`, `hexdec`/`dechex`,
 * ASCII `strtoupper`/`strtolower`, `substr` and PHP's falsy strings.
 */
module Text {
  import opened Wrappers

  /** One byte of a PHP binary string. */
  type byte = x: int | 0 <= x < 256

  predicate IsHexDigit(c: char) {
    ('0' <= c <= '9') || ('a' <= c <= 'f') || ('A' <= c <= 'F')
  }

  predicate IsLowerHexDigit(c: char) {
    ('0' <= c <= '9') || ('a' <= c <= 'f')
  }

  predicate IsHexText(s: string) {
    forall i :: 0 <= i < |s| ==> IsHexDigit(s[i])
  }

  predicate IsLowerHexText(s: string) {
    forall i :: 0 <= i < |s| ==> IsLowerHexDigit(s[i])
  }

  predicate StartsWith(s: string, prefix: string) {
    |prefix| <= |s| && s[..|prefix|] == prefix
  }

  /**
   * White space as PCRE's `\s` and PHP's numeric strings know it: space, tab,
   * line feed, vertical tab, form feed and carriage return.
   */
  predicate IsSpace(c: char) {
    c == ' ' || c == '\t' || c == '\n' || c == '\r' || c == 11 as char || c == 12 as char
  }

  /** How many white-space characters `s` has from index `from` on before anything else. */
  function SpaceRun(s: string, from: nat): (n: nat)
    requires from <= |s|
    ensures from + n <= |s|
    ensures forall i :: from <= i < from + n ==> IsSpace(s[i])
    ensures from + n < |s| ==> !IsSpace(s[from + n])
    decreases |s| - from
  {
    if from == |s| || !IsSpace(s[from]) then 0 else 1 + SpaceRun(s, from + 1)
  }

  /** PHP's falsy strings: `''` and `'0'` (what `?:`, `!` and `empty` treat as false). */
  predicate Falsy(s: string) {
    s == "" || s == "0"
  }

  function HexValue(c: char): (v: nat)
    requires IsHexDigit(c)
    ensures v < 16
  {
    if '0' <= c <= '9' then c as int - '0' as int
    else if 'a' <= c <= 'f' then c as int - 'a' as int + 10
    else c as int - 'A' as int + 10
  }

  /** The lower-case hex digit of a nibble, as `bin2hex` and `dechex` write it. */
  function LowerHexDigit(v: nat): (c: char)
    requires v < 16
    ensures IsLowerHexDigit(c) && IsHexDigit(c) && HexValue(c) == v
  {
    if v < 10 then ('0' as int + v) as char else ('a' as int + v - 10) as char
  }

  function UpperChar(c: char): char {
    if 'a' <= c <= 'z' then (c as int - 32) as char else c
  }

  function LowerChar(c: char): char {
    if 'A' <= c <= 'Z' then (c as int + 32) as char else c
  }

  /** `strtoupper`: ASCII letters only. */
  function ToUpper(s: string): (r: string)
    ensures |r| == |s|
    ensures forall i :: 0 <= i < |s| ==> r[i] == UpperChar(s[i])
  {
    seq(|s|, i requires 0 <= i < |s| => UpperChar(s[i]))
  }

  /** `strtolower`: ASCII letters only. */
  function ToLower(s: string): (r: string)
    ensures |r| == |s|
    ensures forall i :: 0 <= i < |s| ==> r[i] == LowerChar(s[i])
  {
    seq(|s|, i requires 0 <= i < |s| => LowerChar(s[i]))
  }

  /** Upper-casing forgets the case the string was written in. */
  lemma UpperOfLower(s: string)
    ensures ToUpper(ToLower(s)) == ToUpper(s)
    ensures ToUpper(ToUpper(s)) == ToUpper(s)
  {
  }

  /** Lower-casing forgets the case the string was written in. */
  lemma LowerOfUpper(s: string)
    ensures ToLower(ToUpper(s)) == ToLower(s)
    ensures ToLower(ToLower(s)) == ToLower(s)
  {
  }

  /** Lower-case hex text has no letters to upper-case except a-f. */
  lemma LowerHexHasNoUpper(s: string)
    requires IsLowerHexText(s)
    ensures ToLower(s) == s
  {
  }

  /** `strtolower` works character by character, so it splits at any cut. */
  lemma LowerConcat(a: string, b: string)
    ensures ToLower(a + b) == ToLower(a) + ToLower(b)
  {
    assert forall i :: 0 <= i < |a| ==> (a + b)[i] == a[i];
    assert forall i :: |a| <= i < |a| + |b| ==> (a + b)[i] == b[i - |a|];
  }

  lemma LowerSlice(s: string, i: nat, j: nat)
    requires i <= j <= |s|
    ensures ToLower(s[i..j]) == ToLower(s)[i..j]
  {
  }

  /** Only letters change under `strtolower`: a digit or a marker after it was there before, and so was a hex digit. */
  lemma LowerCharKeeps(c: char)
    ensures !('a' <= LowerChar(c) <= 'z') ==> c == LowerChar(c)
    ensures IsLowerHexDigit(LowerChar(c)) <==> IsHexDigit(c)
    ensures IsHexDigit(c) ==> HexValue(LowerChar(c)) == HexValue(c)
  {
  }

  /** `hex2bin` reads either letter case alike. */
  lemma {:induction false} Hex2BinOfLower(s: string)
    ensures Hex2Bin(ToLower(s)) == Hex2Bin(s)
    decreases |s|
  {
    var l := ToLower(s);
    if |s| >= 2 {
      LowerCharKeeps(s[0]);
      LowerCharKeeps(s[1]);
      if IsHexDigit(s[0]) && IsHexDigit(s[1]) {
        LowerSlice(s, 2, |s|);
        Hex2BinOfLower(s[2..]);
        assert l[2..] == ToLower(s[2..]);
        assert l[0] == LowerChar(s[0]) && l[1] == LowerChar(s[1]);
      }
    } else if |s| == 1 {
      LowerCharKeeps(s[0]);
    }
  }

  /** Text whose lower-case form is what `bin2hex` writes for `b` is hex that `hex2bin` reads back as `b`. */
  lemma SpelledHex(s: string, b: seq<byte>)
    requires ToLower(s) == Bin2Hex(b)
    ensures IsHexText(s) && Hex2Bin(s) == Some(b)
  {
    Hex2BinOfLower(s);
    Hex2BinOfBin2Hex(b);
  }

  /** `hex2bin`: fails on odd length or on a non-hex character. */
  function Hex2Bin(s: string): (r: Option<seq<byte>>)
    ensures r.Some? <==> |s| % 2 == 0 && IsHexText(s)
    ensures r.Some? ==> |r.value| == |s| / 2
    decreases |s|
  {
    if |s| == 0 then Some([])
    else if |s| == 1 || !IsHexDigit(s[0]) || !IsHexDigit(s[1]) then None
    else
      assert IsHexText(s) <==> IsHexText(s[2..]) by {
        assert forall i :: 2 <= i < |s| ==> s[i] == s[2..][i - 2];
      }
      match Hex2Bin(s[2..])
      case None => None
      case Some(rest) => Some([16 * HexValue(s[0]) + HexValue(s[1])] + rest)
  }

  /** `bin2hex`: two lower-case hex digits per byte, high nibble first. */
  function Bin2Hex(b: seq<byte>): (r: string)
    ensures |r| == 2 * |b|
    ensures IsLowerHexText(r) && IsHexText(r)
  {
    if |b| == 0 then "" else [LowerHexDigit(b[0] / 16), LowerHexDigit(b[0] % 16)] + Bin2Hex(b[1..])
  }

  /** `hex2bin(bin2hex($b)) === $b`. */
  lemma {:induction false} Hex2BinOfBin2Hex(b: seq<byte>)
    ensures Hex2Bin(Bin2Hex(b)) == Some(b)
  {
    if |b| > 0 {
      var h := Bin2Hex(b);
      assert h[2..] == Bin2Hex(b[1..]);
      Hex2BinOfBin2Hex(b[1..]);
      assert b == [b[0]] + b[1..];
    }
  }

  /** `bin2hex` of a concatenation. */
  lemma {:induction false} Bin2HexConcat(a: seq<byte>, b: seq<byte>)
    ensures Bin2Hex(a + b) == Bin2Hex(a) + Bin2Hex(b)
  {
    if |a| > 0 {
      assert (a + b)[0] == a[0] && (a + b)[1..] == a[1..] + b;
      Bin2HexConcat(a[1..], b);
    } else {
      assert a + b == b;
    }
  }

  /** A byte below 16 prints as `0` and its one digit. */
  lemma SmallByteHex(b: byte)
    requires b < 16
    ensures Bin2Hex([b]) == ['0', LowerHexDigit(b)]
  {
    assert b / 16 == 0 && b % 16 == b;
    assert [b][1..] == [];
    assert LowerHexDigit(0) == '0';
  }

  /** `bin2hex(hex2bin($s))` is `$s` in lower case. */
  lemma {:induction false} Bin2HexOfHex2Bin(s: string)
    requires Hex2Bin(s).Some?
    ensures Bin2Hex(Hex2Bin(s).value) == ToLower(s)
    decreases |s|
  {
    if |s| > 0 {
      var b := Hex2Bin(s).value;
      assert Hex2Bin(s[2..]).Some?;
      Bin2HexOfHex2Bin(s[2..]);
      assert b[1..] == Hex2Bin(s[2..]).value;
      assert b[0] / 16 == HexValue(s[0]) && b[0] % 16 == HexValue(s[1]);
      LowerDigitOfValue(s[0]);
      LowerDigitOfValue(s[1]);
      assert ToLower(s) == [LowerChar(s[0]), LowerChar(s[1])] + ToLower(s[2..]);
    }
  }

  lemma LowerDigitOfValue(c: char)
    requires IsHexDigit(c)
    ensures LowerHexDigit(HexValue(c)) == LowerChar(c)
  {
  }

  lemma LowerHexUnique(c: char, d: char)
    requires IsLowerHexDigit(c) && IsLowerHexDigit(d)
    requires HexValue(c) == HexValue(d)
    ensures c == d
  {
  }

  /** Byte `i` of `hex2bin($s)` is spelled by characters `2i` and `2i+1`. */
  lemma {:induction false} Hex2BinAt(s: string, i: nat)
    requires Hex2Bin(s).Some? && i < |s| / 2
    ensures Hex2Bin(s).value[i] == 16 * HexValue(s[2 * i]) + HexValue(s[2 * i + 1])
    decreases i
  {
    if i > 0 {
      assert Hex2Bin(s[2..]).Some?;
      Hex2BinAt(s[2..], i - 1);
      assert s[2..][2 * (i - 1)] == s[2 * i] && s[2..][2 * (i - 1) + 1] == s[2 * i + 1];
    }
  }

  /** `hex2bin` of a concatenation at an even cut. */
  lemma {:induction false} Hex2BinConcat(a: string, b: string)
    requires Hex2Bin(a).Some? && Hex2Bin(b).Some?
    ensures Hex2Bin(a + b) == Some(Hex2Bin(a).value + Hex2Bin(b).value)
    decreases |a|
  {
    if |a| > 0 {
      assert (a + b)[2..] == a[2..] + b;
      assert Hex2Bin(a[2..]).Some?;
      Hex2BinConcat(a[2..], b);
      assert (a + b)[0] == a[0] && (a + b)[1] == a[1];
      var x: byte := 16 * HexValue(a[0]) + HexValue(a[1]);
      assert Hex2Bin(a).value == [x] + Hex2Bin(a[2..]).value;
      assert Hex2Bin(a + b).value == [x] + Hex2Bin(a[2..] + b).value;
      assert [x] + (Hex2Bin(a[2..]).value + Hex2Bin(b).value) == ([x] + Hex2Bin(a[2..]).value) + Hex2Bin(b).value;
    } else {
      assert a + b == b;
      assert Hex2Bin(a).value + Hex2Bin(b).value == Hex2Bin(b).value;
    }
  }

  /** Hex text and the bytes it spells, for fixed identities checked by hand. */
  lemma HexPairs(h: string, b: seq<byte>)
    requires |h| == 2 * |b| && IsLowerHexText(h)
    requires forall i :: 0 <= i < |b| ==> HexValue(h[2 * i]) == b[i] / 16 && HexValue(h[2 * i + 1]) == b[i] % 16
    ensures Bin2Hex(b) == h && Hex2Bin(h) == Some(b)
  {
    Bin2HexOfPairs(h, b);
    Hex2BinOfBin2Hex(b);
  }

  /** Pair by pair, lower-case hex text that spells `b` is what `bin2hex` writes for it. */
  lemma {:induction false} Bin2HexOfPairs(h: string, b: seq<byte>)
    requires |h| == 2 * |b| && IsLowerHexText(h)
    requires forall i :: 0 <= i < |b| ==> HexValue(h[2 * i]) == b[i] / 16 && HexValue(h[2 * i + 1]) == b[i] % 16
    ensures Bin2Hex(b) == h
    decreases |b|
  {
    if |b| > 0 {
      var t := h[2..];
      forall i | 0 <= i < |b| - 1
        ensures HexValue(t[2 * i]) == b[1..][i] / 16 && HexValue(t[2 * i + 1]) == b[1..][i] % 16
      {
        assert t[2 * i] == h[2 * (i + 1)] && t[2 * i + 1] == h[2 * (i + 1) + 1];
      }
      assert IsLowerHexText(t) by {
        assert forall i :: 0 <= i < |t| ==> t[i] == h[i + 2];
      }
      Bin2HexOfPairs(t, b[1..]);
      assert HexValue(h[0]) == b[0] / 16 && HexValue(h[1]) == b[0] % 16;
      LowerHexUnique(h[0], LowerHexDigit(b[0] / 16));
      LowerHexUnique(h[1], LowerHexDigit(b[0] % 16));
      assert h == [h[0], h[1]] + t;
    }
  }

  /** `hexdec`: reads the hex digits of `s` in order, ignoring every other character. */
  function HexDec(s: string): (r: nat)
    ensures r == 0 <==> forall i :: 0 <= i < |s| && IsHexDigit(s[i]) ==> HexValue(s[i]) == 0
    decreases |s|
  {
    assert forall i :: 0 <= i < |s| - 1 ==> s[..|s| - 1][i] == s[i];
    if |s| == 0 then 0
    else if IsHexDigit(s[|s| - 1]) then 16 * HexDec(s[..|s| - 1]) + HexValue(s[|s| - 1])
    else HexDec(s[..|s| - 1])
  }

  /** Two hex digits decode by `hexdec` to the byte `hex2bin` gives. */
  lemma HexDecOfByteHex(s: string)
    requires |s| == 2 && IsHexText(s)
    ensures Hex2Bin(s).Some? && HexDec(s) == Hex2Bin(s).value[0]
    ensures HexDec(s) == 16 * HexValue(s[0]) + HexValue(s[1])
  {
    assert s[..1][..0] == "";
    assert s[2..] == "";
    assert Hex2Bin(s[2..]) == Some([]);
  }

  /** `dechex` of a non-negative integer: lower case, no padding. */
  function NatToHex(n: nat): (r: string)
    ensures |r| >= 1 && IsLowerHexText(r) && IsHexText(r)
    ensures n > 0 ==> r[0] != '0'
    ensures r[0] != '0' || r == "0"
    decreases n
  {
    if n < 16 then [LowerHexDigit(n)] else NatToHex(n / 16) + [LowerHexDigit(n % 16)]
  }

  /** `hexdec(dechex($n)) == $n`. */
  lemma {:induction false} HexDecOfNatToHex(n: nat)
    ensures HexDec(NatToHex(n)) == n
    decreases n
  {
    var r := NatToHex(n);
    if n < 16 {
      assert r[..0] == "";
    } else {
      HexDecOfNatToHex(n / 16);
      assert r[..|r| - 1] == NatToHex(n / 16);
    }
  }

  function Min(a: int, b: int): int {
    if a <= b then a else b
  }

  /** Where PHP 8's `substr` starts for an offset `start` into a string of length `n`. */
  function Offset(n: nat, start: int): (o: nat)
    ensures o <= n
  {
    if start >= 0 then Min(start, n) else if n + start >= 0 then n + start else 0
  }

  /** `substr($s, $start)`. */
  function SubstrFrom(s: string, start: int): (r: string)
    ensures 0 <= start <= |s| ==> r == s[start..]
    ensures start > |s| ==> r == ""
  {
    s[Offset(|s|, start)..]
  }

  /** `substr($s, $start, $len)` for a non-negative length. */
  function Substr(s: string, start: int, len: nat): (r: string)
    ensures |r| <= len
    ensures 0 <= start && start + len <= |s| ==> r == s[start..start + len]
  {
    var o := Offset(|s|, start);
    s[o..Min(o + len, |s|)]
  }

  /** `substr` on a binary string, for a non-negative start. */
  function Bytes(b: seq<byte>, start: nat, len: nat): (r: seq<byte>)
    ensures |r| <= len
    ensures start + len <= |b| ==> r == b[start..start + len]
  {
    if start >= |b| then [] else b[start..Min(start + len, |b|)]
  }

  function BytesFrom(b: seq<byte>, start: nat): (r: seq<byte>)
    ensures start <= |b| ==> r == b[start..]
  {
    if start >= |b| then [] else b[start..]
  }
}
