/**
 * The property parser of src/AdapterInfo.php: it reads the output of
 * `bt-adapter -i` (a `[hci0]` heading, then `Key: value` lines, some marked
 * `[rw]`) into an adapter record, which is either new or one passed in
 * and updated in place.
 */
module AdapterInfos {
  import opened Wrappers
  import opened Text
  import opened Dicts

  /** The fields of an AdapterInfo object at one moment. */
  datatype Info = Info(
    hci: string, mac: string, name: string, alias: string,
    discoverable: bool, discoverableTimeout: int,
    pairable: bool, pairableTimeout: int, powered: bool)

  /** A new object: the constructor's case-normalised name and address, the declared defaults. */
  function Initial(hci: string, mac: string): (r: Info)
    ensures r.hci == ToLower(hci) && r.mac == ToUpper(mac)
    ensures r.name == "" && r.alias == "" && !r.discoverable && !r.pairable && !r.powered
    ensures r.discoverableTimeout == 0 && r.pairableTimeout == 0
  {
    Info(ToLower(hci), ToUpper(mac), "", "", false, 0, false, 0, false)
  }

  // ---------------------------------------------------------------------------
  // PHP string conversions
  // ---------------------------------------------------------------------------

  predicate IsTrimmed(c: char) {
    c == ' ' || c == '[' || c == ']'
  }

  /** Text made only of spaces and brackets. */
  predicate AllTrimmed(p: string) {
    forall i :: 0 <= i < |p| ==> IsTrimmed(p[i])
  }

  /** `r` sits in `s` at `k`, with only spaces and brackets before and after it. */
  predicate TrimmedInfix(s: string, r: string, k: nat) {
    k + |r| <= |s| && s[k..k + |r|] == r && AllTrimmed(s[..k]) && AllTrimmed(s[k + |r|..])
  }

  /**
   * `trim($s, ' []')`: `s` is the result with a run of spaces and brackets
   * before and after it, and the result neither starts nor ends with one.
   */
  function Trim(s: string): (r: string)
    ensures |r| <= |s|
    ensures |r| > 0 ==> !IsTrimmed(r[0]) && !IsTrimmed(r[|r| - 1])
    ensures AllTrimmed(s) <==> r == ""
    ensures exists k: nat :: TrimmedInfix(s, r, k)
    decreases |s|
  {
    if |s| == 0 then
      InfixWhole(s);
      ""
    else if IsTrimmed(s[0]) then
      var r := Trim(s[1..]);
      TrimFront(s, r);
      r
    else if IsTrimmed(s[|s| - 1]) then
      var r := Trim(s[..|s| - 1]);
      TrimBack(s, s[..|s| - 1], r);
      r
    else
      InfixWhole(s);
      s
  }

  lemma InfixWhole(s: string)
    ensures TrimmedInfix(s, s, 0)
  {
    assert s[0..|s|] == s && s[..0] == "" && s[|s|..] == "";
  }

  /** A leading space or bracket joins the run before the infix. */
  /** A space or bracket in front changes neither whether all is trimmed nor the infix found. */
  lemma TrimFront(s: string, r: string)
    requires |s| > 0 && IsTrimmed(s[0])
    requires AllTrimmed(s[1..]) <==> r == ""
    requires exists k: nat :: TrimmedInfix(s[1..], r, k)
    ensures AllTrimmed(s) <==> r == ""
    ensures exists k: nat :: TrimmedInfix(s, r, k)
  {
    assert forall i :: 1 <= i < |s| ==> s[i] == s[1..][i - 1];
    var k: nat :| TrimmedInfix(s[1..], r, k);
    InfixCons(s, r, k);
  }

  /** Likewise for one behind. */
  lemma TrimBack(s: string, t: string, r: string)
    requires |s| > 0 && IsTrimmed(s[|s| - 1]) && t == s[..|s| - 1]
    requires AllTrimmed(t) <==> r == ""
    requires exists k: nat :: TrimmedInfix(t, r, k)
    ensures AllTrimmed(s) <==> r == ""
    ensures exists k: nat :: TrimmedInfix(s, r, k)
  {
    assert forall i :: 0 <= i < |s| - 1 ==> s[i] == t[i];
    var k: nat :| TrimmedInfix(t, r, k);
    InfixSnoc(s, r, k);
  }

  lemma InfixCons(s: string, r: string, k: nat)
    requires |s| > 0 && IsTrimmed(s[0]) && TrimmedInfix(s[1..], r, k)
    ensures TrimmedInfix(s, r, k + 1)
  {
    var t := s[1..];
    assert s[k + 1..k + 1 + |r|] == t[k..k + |r|];
    assert s[..k + 1] == [s[0]] + t[..k];
    assert s[k + 1 + |r|..] == t[k + |r|..];
  }

  /** A trailing space or bracket joins the run after the infix. */
  lemma InfixSnoc(s: string, r: string, k: nat)
    requires |s| > 0 && IsTrimmed(s[|s| - 1]) && TrimmedInfix(s[..|s| - 1], r, k)
    ensures TrimmedInfix(s, r, k)
  {
    var t := s[..|s| - 1];
    assert s[k..k + |r|] == t[k..k + |r|];
    assert s[..k] == t[..k];
    assert s[k + |r|..] == t[k + |r|..] + [s[|s| - 1]];
  }

  /** The heading `bt-adapter` prints gives its interface name. */
  lemma TrimHeading(hci: string)
    requires |hci| > 0 && !IsTrimmed(hci[0]) && !IsTrimmed(hci[|hci| - 1])
    ensures Trim("[" + hci + "]") == hci
  {
    var s := "[" + hci + "]";
    var t := hci + "]";
    assert s[1..] == t && s[0] == '[';
    assert t[..|t| - 1] == hci && t[0] == hci[0] && t[|t| - 1] == ']';
    TrimStep(s);
    TrimStep(t);
    TrimStep(hci);
  }

  /** One unfolding of `Trim`. */
  lemma TrimStep(s: string)
    requires |s| > 0
    ensures Trim(s) == if IsTrimmed(s[0]) then Trim(s[1..])
      else if IsTrimmed(s[|s| - 1]) then Trim(s[..|s| - 1])
      else s
  {
  }

  predicate IsDigit(c: char) {
    '0' <= c <= '9'
  }

  /** How many decimal digits `s` has from index `from` on. */
  function DigitRun(s: string, from: nat): (n: nat)
    requires from <= |s|
    ensures from + n <= |s|
    ensures forall i :: from <= i < from + n ==> IsDigit(s[i])
    ensures from + n < |s| ==> !IsDigit(s[from + n])
    decreases |s| - from
  {
    if from == |s| || !IsDigit(s[from]) then 0 else 1 + DigitRun(s, from + 1)
  }

  /** The value of a string of decimal digits. */
  function DecValue(d: string): (v: nat)
    requires forall i :: 0 <= i < |d| ==> IsDigit(d[i])
  {
    if |d| == 0 then 0
    else
      var c := d[|d| - 1];
      assert IsDigit(c);
      10 * DecValue(d[..|d| - 1]) + (c as int - '0' as int)
  }

  /**
   * `(int)$s`: leading white space, an optional sign and the decimal digits
   * that follow; anything after them is ignored, and no digits give 0.
   */
  function ToInt(s: string): (r: int)
    ensures (forall i :: 0 <= i < |s| ==> IsDigit(s[i])) ==> r == DecValue(s)
  {
    IntFrom(s, 0)
  }

  /**
   * `(int)` of white space (`s[..k]`), an optional sign, the digits
   * `s[start..start + n]` and any text that does not continue them: the
   * signed value of the digits. This covers the values of `[rw]` lines,
   * which keep the space before the marker.
   */
  lemma ToIntOf(s: string, k: nat, start: nat, n: nat)
    requires k < |s| && forall i :: 0 <= i < k ==> IsSpace(s[i])
    requires start == k || (start == k + 1 && (s[k] == '+' || s[k] == '-'))
    requires 0 < n && start + n <= |s| && forall i :: start <= i < start + n ==> IsDigit(s[i])
    requires start + n == |s| || !IsDigit(s[start + n])
    ensures var v: int := DecValue(s[start..start + n]);
      ToInt(s) == if start == k + 1 && s[k] == '-' then -v else v
  {
    SkipSpaces(s, 0, k);
    DigitRunIs(s, start, n);
    IntFromSigned(s, k, start, n);
  }

  /** `(int)` at its first character that is not white space. */
  lemma IntFromSigned(s: string, from: nat, start: nat, n: nat)
    requires from < |s| && !IsSpace(s[from])
    requires start == if s[from] == '-' || s[from] == '+' then from + 1 else from
    requires start + n <= |s| && DigitRun(s, start) == n
    ensures var v: int := DecValue(s[start..start + n]);
      IntFrom(s, from) == if s[from] == '-' then -v else v
  {
    assert IntFrom(s, from) == SignedFrom(s, from);
  }

  /** `(int)` of text with no digits after its white space and optional sign is 0. */
  lemma ToIntNoDigits(ws: string, rest: string)
    requires forall i :: 0 <= i < |ws| ==> IsSpace(ws[i])
    requires rest == "" || !IsSpace(rest[0])
    requires var start := if |rest| > 0 && (rest[0] == '-' || rest[0] == '+') then 1 else 0;
      start == |rest| || !IsDigit(rest[start])
    ensures ToInt(ws + rest) == 0
  {
    var s := ws + rest;
    assert s[..|ws|] == ws;
    SkipSpaces(s, 0, |ws|);
    var start := if |rest| > 0 && (rest[0] == '-' || rest[0] == '+') then |ws| + 1 else |ws|;
    assert start < |s| ==> s[start] == rest[start - |ws|];
    DigitRunIs(s, start, 0);
    assert s[start..start] == "";
  }

  /** The values of flag and timeout lines as the property regex leaves them. */
  lemma MarkedValues()
    ensures ToInt("1 ") == 1 && ToInt("0 ") == 0 && ToInt("180 ") == 180
  {
    assert "1"[..0] == "" && "0"[..0] == "";
    MarkedValue("1", 1);
    assert "1" + " " == "1 ";
    MarkedValue("0", 0);
    assert "0" + " " == "0 ";
    assert DecValue("180") == 180 by {
      assert "180"[..2] == "18" && "18"[..1] == "1";
    }
    MarkedValue("180", 180);
    assert "180" + " " == "180 ";
  }

  /** Digits followed by the space before a `[rw]` marker. */
  lemma MarkedValue(digits: string, v: nat)
    requires |digits| > 0 && forall i :: 0 <= i < |digits| ==> IsDigit(digits[i])
    requires DecValue(digits) == v
    ensures ToInt(digits + " ") == v
  {
    var s := digits + " ";
    assert s[0..|digits|] == digits;
    ToIntOf(s, 0, 0, |digits|);
  }

  lemma {:induction false} SkipSpaces(s: string, from: nat, upto: nat)
    requires from <= upto <= |s|
    requires forall i :: from <= i < upto ==> IsSpace(s[i])
    ensures IntFrom(s, from) == IntFrom(s, upto)
    decreases upto - from
  {
    if from < upto {
      SkipSpaces(s, from + 1, upto);
    }
  }

  lemma {:induction false} DigitRunIs(s: string, from: nat, n: nat)
    requires from + n <= |s|
    requires forall i :: from <= i < from + n ==> IsDigit(s[i])
    requires from + n == |s| || !IsDigit(s[from + n])
    ensures DigitRun(s, from) == n
    decreases n
  {
    if n > 0 {
      DigitRunIs(s, from + 1, n - 1);
    }
  }

  /** `(int)` from index `from` on, past the white space already skipped. */
  function IntFrom(s: string, from: nat): (r: int)
    requires from <= |s|
    ensures from == 0 && (forall i :: 0 <= i < |s| ==> IsDigit(s[i])) ==> r == DecValue(s)
    decreases |s| - from
  {
    if from < |s| && IsSpace(s[from]) then IntFrom(s, from + 1) else SignedFrom(s, from)
  }

  /** `(int)` from the first character that is not white space: a sign, then digits. */
  function SignedFrom(s: string, from: nat): (r: int)
    requires from <= |s|
    ensures from == 0 && (forall i :: 0 <= i < |s| ==> IsDigit(s[i])) ==> r == DecValue(s)
  {
    var start := if from < |s| && (s[from] == '-' || s[from] == '+') then from + 1 else from;
    var n := DigitRun(s, start);
    var v: int := DecValue(s[start..start + n]);
    assert from == 0 && (forall i :: 0 <= i < |s| ==> IsDigit(s[i])) ==> start == 0 && n == |s| && s[..|s|] == s;
    if from < |s| && s[from] == '-' then -v else v
  }

  // ---------------------------------------------------------------------------
  // Property lines
  // ---------------------------------------------------------------------------

  /** The index of the first colon of `s` from index `from` on. */
  function ColonAt(s: string, from: nat): (r: Option<nat>)
    requires from <= |s|
    ensures r.None? ==> forall i :: from <= i < |s| ==> s[i] != ':'
    ensures r.Some? ==> (from <= r.value < |s| && s[r.value] == ':'
      && forall i :: from <= i < r.value ==> s[i] != ':')
    decreases |s| - from
  {
    if from == |s| then None else if s[from] == ':' then Some(from) else ColonAt(s, from + 1)
  }

  /** The access marker `\[r?w?\]` that may end a value. */
  predicate IsMarker(m: string) {
    m == "[]" || m == "[r]" || m == "[w]" || m == "[rw]"
  }

  /** The length of the marker `v` ends with, when something comes before it; 0 when there is none. */
  function MarkerLength(v: string): (n: nat)
    ensures n <= |v|
    ensures n > 0 ==> n < |v| && IsMarker(v[|v| - n..])
  {
    var k := |v|;
    if k < 3 || v[k - 1] != ']' then 0
    else if v[k - 2] == '[' then 2
    else if k > 3 && v[k - 3] == '[' && (v[k - 2] == 'r' || v[k - 2] == 'w') then 3
    else if k > 4 && v[k - 4] == '[' && v[k - 3] == 'r' && v[k - 2] == 'w' then 4
    else 0
  }

  /** The shortest non-empty value `(.+?)` leaves before an optional marker and the end. */
  function StripMarker(v: string): (r: string)
    requires |v| > 0
    ensures 0 < |r| <= |v| && StartsWith(v, r)
    ensures |r| < |v| ==> IsMarker(v[|r|..])
  {
    v[..|v| - MarkerLength(v)]
  }

  /**
   * `/^\s*([^\:]+)\:\s*(.+?)(\[r?w?\])?$/`: the lower-cased key and the value
   * of a property line. The key runs to the first colon, keeping at least one
   * character; the value keeps at least one character after the white space
   * that follows the colon.
   */
  function PropLine(line: string): (r: Option<(string, string)>)
    ensures r.None? <==>
      || (forall i :: 0 <= i < |line| ==> line[i] != ':')
      || (|line| > 0 && line[0] == ':')
      || (|line| > 0 && line[|line| - 1] == ':' && forall i :: 0 <= i < |line| - 1 ==> line[i] != ':')
    ensures r.Some? ==> ToLower(r.value.0) == r.value.0 && |r.value.1| > 0
  {
    match ColonAt(line, 0)
    case None => None
    case Some(c) =>
      if c == 0 || c + 1 == |line| then None
      else
        var w := SpaceRun(line, 0);
        var keyStart := if w < c then w else c - 1;
        var rest := line[c + 1..];
        var w2 := SpaceRun(rest, 0);
        var valueStart := if w2 < |rest| then w2 else |rest| - 1;
        LowerOfUpper(line[keyStart..c]);
        Some((ToLower(line[keyStart..c]), StripMarker(rest[valueStart..])))
  }

  /** A value without a marker of its own keeps the marker written after it out. */
  lemma StripMarkerOf(value: string, marker: string)
    requires |value| > 0 && MarkerLength(value) == 0
    requires marker == "" || IsMarker(marker)
    ensures StripMarker(value + marker) == value
  {
    var v := value + marker;
    assert v[..|value|] == value;
    if marker != "" {
      assert v[|value|..] == marker;
      assert forall i :: 0 <= i < |marker| ==> v[|value| + i] == marker[i];
    }
  }

  /** The key part of a property line: an indent, a key without colons, then the colon. */
  lemma KeyOf(indent: string, key: string, tail: string)
    requires forall i :: 0 <= i < |indent| ==> indent[i] == ' '
    requires |key| > 0 && !IsSpace(key[0]) && forall i :: 0 <= i < |key| ==> key[i] != ':'
    requires |tail| > 0 && tail[0] == ':'
    ensures var line := indent + key + tail;
      ColonAt(line, 0) == Some(|indent| + |key|) && SpaceRun(line, 0) == |indent|
      && line[|indent|..|indent| + |key|] == key && line[|indent| + |key| + 1..] == tail[1..]
  {
    var line := indent + key + tail;
    assert forall i :: 0 <= i < |indent| ==> line[i] == indent[i];
    assert forall i :: 0 <= i < |key| ==> line[|indent| + i] == key[i];
    assert line[|indent| + |key|] == ':';
  }

  /** A line whose colon, indent and value start are known. */
  lemma PropLineIs(line: string, c: nat, w: nat, w2: nat)
    requires ColonAt(line, 0) == Some(c) && 0 < c && c + 1 < |line|
    requires SpaceRun(line, 0) == w && w < c
    requires SpaceRun(line[c + 1..], 0) == w2 && w2 < |line| - c - 1
    ensures PropLine(line) == Some((ToLower(line[w..c]), StripMarker(line[c + 1..][w2..])))
  {
  }

  /** The property lines `bt-adapter` prints: indent, key, colon, value and an optional marker. */
  lemma PropLineOf(indent: string, key: string, value: string, marker: string)
    requires forall i :: 0 <= i < |indent| ==> indent[i] == ' '
    requires |key| > 0 && !IsSpace(key[0]) && forall i :: 0 <= i < |key| ==> key[i] != ':'
    requires |value| > 0 && !IsSpace(value[0]) && MarkerLength(value) == 0
    requires marker == "" || IsMarker(marker)
    ensures PropLine(indent + key + ": " + value + marker) == Some((ToLower(key), value))
  {
    var rest := " " + (value + marker);
    var tail := ":" + rest;
    var line := indent + key + tail;
    LineRegrouped(indent + key, value, marker);
    KeyOf(indent, key, tail);
    assert tail[1..] == rest;
    var c := |indent| + |key|;
    assert line[c + 1..] == rest;
    assert SpaceRun(rest, 0) == 1 by {
      assert rest[1] == value[0];
    }
    assert rest[1..] == value + marker;
    PropLineIs(line, c, |indent|, 1);
    StripMarkerOf(value, marker);
  }

  lemma LineRegrouped(head: string, value: string, marker: string)
    ensures head + ": " + value + marker == head + (":" + (" " + (value + marker)))
  {
    assert ": " == ":" + " ";
  }

  /** The property dictionary after the lines: a later line for a key overwrites the earlier. */
  function PropsOf(lines: seq<string>): (r: Dict<string>)
  {
    if |lines| == 0 then []
    else
      var props := PropsOf(lines[..|lines| - 1]);
      match PropLine(lines[|lines| - 1])
      case None => props
      case Some(kv) => Put(props, kv.0, kv.1)
  }

  /** The keys are unique and lower-case. */
  lemma {:induction false} PropsKeys(lines: seq<string>)
    ensures UniqueKeys(PropsOf(lines))
    ensures forall i :: 0 <= i < |PropsOf(lines)| ==> ToLower(PropsOf(lines)[i].0) == PropsOf(lines)[i].0
    decreases |lines|
  {
    if |lines| > 0 {
      var props := PropsOf(lines[..|lines| - 1]);
      PropsKeys(lines[..|lines| - 1]);
      match PropLine(lines[|lines| - 1])
      case None =>
      case Some(kv) =>
        PutUnique(props, kv.0, kv.1);
        var r := Put(props, kv.0, kv.1);
        forall i | 0 <= i < |r|
          ensures ToLower(r[i].0) == r[i].0
        {
          if i >= |props| {
            assert r[i] == (kv.0, kv.1);
          }
        }
    }
  }

  /** A line read as `key: value` sets that key; other keys keep what the earlier lines gave. */
  lemma PropsLastLine(lines: seq<string>, line: string, key: string)
    ensures Get(PropsOf(lines + [line]), key) ==
      match PropLine(line)
      case Some(kv) => if kv.0 == key then Some(kv.1) else Get(PropsOf(lines), key)
      case None => Get(PropsOf(lines), key)
  {
    var all := lines + [line];
    assert all[..|all| - 1] == lines;
    match PropLine(line)
    case None =>
    case Some(kv) => GetPut(PropsOf(lines), kv.0, kv.1, key);
  }

  // ---------------------------------------------------------------------------
  // Assigning the fields
  // ---------------------------------------------------------------------------

  /** The keys the switch has a case for. */
  predicate IsKnownProp(prop: string) {
    prop in {"name", "alias", "discoverable", "discoverabletimeout", "pairable", "pairabletimeout", "powered"}
  }

  /** One `case` of the switch: the known keys set their field, any other key changes nothing. */
  function Assigned(info: Info, prop: string, value: string): (r: Info)
    ensures r.hci == info.hci && r.mac == info.mac
    ensures !IsKnownProp(prop) ==> r == info
  {
    match prop
    case "name" => info.(name := value)
    case "alias" => info.(alias := value)
    case "discoverable" => info.(discoverable := ToInt(value) != 0)
    case "discoverabletimeout" => info.(discoverableTimeout := ToInt(value))
    case "pairable" => info.(pairable := ToInt(value) != 0)
    case "pairabletimeout" => info.(pairableTimeout := ToInt(value))
    case "powered" => info.(powered := ToInt(value) != 0)
    case _ => info
  }

  /** Field by field, what one `case` does. */
  lemma AssignedFields(info: Info, prop: string, value: string)
    ensures Assigned(info, prop, value) == info.(
      name := if prop == "name" then value else info.name,
      alias := if prop == "alias" then value else info.alias,
      discoverable := if prop == "discoverable" then ToInt(value) != 0 else info.discoverable,
      discoverableTimeout := if prop == "discoverabletimeout" then ToInt(value) else info.discoverableTimeout,
      pairable := if prop == "pairable" then ToInt(value) != 0 else info.pairable,
      pairableTimeout := if prop == "pairabletimeout" then ToInt(value) else info.pairableTimeout,
      powered := if prop == "powered" then ToInt(value) != 0 else info.powered)
  {
  }

  /** The second loop: every property in dictionary order. */
  function AssignedAll(props: Dict<string>, info: Info): (r: Info)
    ensures r.hci == info.hci && r.mac == info.mac
  {
    if |props| == 0 then info
    else
      var last := props[|props| - 1];
      Assigned(AssignedAll(props[..|props| - 1], info), last.0, last.1)
  }

  /** One more property assigned: the loop of lines 39-64 visits the properties in order. */
  lemma AssignedAllNext(props: Dict<string>, i: nat, info: Info)
    requires i < |props|
    ensures AssignedAll(props[..i + 1], info) == Assigned(AssignedAll(props[..i], info), props[i].0, props[i].1)
  {
    assert props[..i + 1][..i] == props[..i];
  }

  function StringProp(props: Dict<string>, key: string, otherwise: string): string {
    match Get(props, key)
    case Some(v) => v
    case None => otherwise
  }

  function IntProp(props: Dict<string>, key: string, otherwise: int): int {
    match Get(props, key)
    case Some(v) => ToInt(v)
    case None => otherwise
  }

  /** `(bool)(int)$value`. */
  function BoolProp(props: Dict<string>, key: string, otherwise: bool): bool {
    match Get(props, key)
    case Some(v) => ToInt(v) != 0
    case None => otherwise
  }

  lemma GetInit(props: Dict<string>, key: string)
    requires UniqueKeys(props) && |props| > 0
    ensures Get(props, key) ==
      if props[|props| - 1].0 == key then Some(props[|props| - 1].1)
      else Get(props[..|props| - 1], key)
  {
    var init, last := props[..|props| - 1], props[|props| - 1];
    assert props == init + [last];
    GetSnoc(init, last, key);
    if last.0 == key {
      assert forall i :: 0 <= i < |init| ==> init[i].0 != key by {
        assert forall i :: 0 <= i < |init| ==> init[i] == props[i];
      }
    }
  }

  /** The last property sets at most its own field; the earlier ones give the rest. */
  lemma AssignedLast(props: Dict<string>, info: Info, key: string)
    requires UniqueKeys(props) && |props| > 0
    ensures var init, last := props[..|props| - 1], props[|props| - 1];
      AssignedAll(props, info) == Assigned(AssignedAll(init, info), last.0, last.1)
      && UniqueKeys(init)
      && Get(props, key) == if last.0 == key then Some(last.1) else Get(init, key)
  {
    GetInit(props, key);
  }

  /**
   * Each known field takes the value of its property, or keeps its earlier
   * value when the output has no such property; name and address stay.
   */
  lemma {:induction false} FieldsFromProps(props: Dict<string>, info: Info)
    requires UniqueKeys(props)
    ensures var r := AssignedAll(props, info);
      && r.name == StringProp(props, "name", info.name)
      && r.alias == StringProp(props, "alias", info.alias)
      && r.discoverable == BoolProp(props, "discoverable", info.discoverable)
      && r.discoverableTimeout == IntProp(props, "discoverabletimeout", info.discoverableTimeout)
      && r.pairable == BoolProp(props, "pairable", info.pairable)
      && r.pairableTimeout == IntProp(props, "pairabletimeout", info.pairableTimeout)
      && r.powered == BoolProp(props, "powered", info.powered)
    decreases |props|
  {
    if |props| > 0 {
      var init, last := props[..|props| - 1], props[|props| - 1];
      AssignedLast(props, info, "name");
      FieldsFromProps(init, info);
      AssignedFields(AssignedAll(init, info), last.0, last.1);
      AssignedLast(props, info, "alias");
      AssignedLast(props, info, "discoverable");
      AssignedLast(props, info, "discoverabletimeout");
      AssignedLast(props, info, "pairable");
      AssignedLast(props, info, "pairabletimeout");
      AssignedLast(props, info, "powered");
    }
  }

  // ---------------------------------------------------------------------------
  // The parser
  // ---------------------------------------------------------------------------

  /**
   * Why `parseBtAdapterInfo` returns null: no heading, an empty name, no
   * property lines, or an `address` property that is missing, falsy or not
   * the expected address.
   */
  predicate Rejected(mac: string, ret: seq<string>) {
    |ret| == 0 || Falsy(Trim(ret[0])) || |ret| == 1
    || match Get(PropsOf(ret[1..]), "address")
       case None => true
       case Some(a) => Falsy(a) || ToUpper(a) != ToUpper(mac)
  }

  /** The fields of the returned object, given the fields it starts from. */
  function Parsed(mac: string, ret: seq<string>, before: Info): (r: Info)
    requires !Rejected(mac, ret)
    ensures r.hci == ToLower(Trim(ret[0])) && r.mac == ToUpper(mac)
  {
    AssignedAll(PropsOf(ret[1..]), before.(hci := ToLower(Trim(ret[0])), mac := ToUpper(mac)))
  }

  class AdapterInfo {
    var hci: string
    var mac: string
    var name: string
    var alias: string
    var discoverable: bool
    var discoverableTimeout: int
    var pairable: bool
    var pairableTimeout: int
    var powered: bool

    function Snapshot(): Info
      reads this
    {
      Info(hci, mac, name, alias, discoverable, discoverableTimeout, pairable, pairableTimeout, powered)
    }

    constructor(hci: string, mac: string)
      ensures Snapshot() == Initial(hci, mac)
    {
      this.hci := ToLower(hci);
      this.mac := ToUpper(mac);
      name := "";
      alias := "";
      discoverable := false;
      discoverableTimeout := 0;
      pairable := false;
      pairableTimeout := 0;
      powered := false;
    }

    /** One pass of the `switch`. */
    method Assign(prop: string, value: string)
      modifies this
      ensures Snapshot() == Assigned(old(Snapshot()), prop, value)
    {
      match prop
      case "name" => name := value;
      case "alias" => alias := value;
      case "discoverable" => discoverable := ToInt(value) != 0;
      case "discoverabletimeout" => discoverableTimeout := ToInt(value);
      case "pairable" => pairable := ToInt(value) != 0;
      case "pairabletimeout" => pairableTimeout := ToInt(value);
      case "powered" => powered := ToInt(value) != 0;
      case _ =>
    }
  }

  /** The first loop: collects the property lines. */
  method CollectProps(lines: seq<string>) returns (props: Dict<string>)
    ensures props == PropsOf(lines)
  {
    props := [];
    for k := 0 to |lines|
      invariant props == PropsOf(lines[..k])
    {
      assert lines[..k + 1][..k] == lines[..k];
      var kv := PropLine(lines[k]);
      if kv.None? {
        continue;
      }
      props := Put(props, kv.value.0, kv.value.1);
    }
    assert lines[..|lines|] == lines;
  }

  /**
   * `parseBtAdapterInfo`: null when the output is rejected (and the adapter
   * passed in, if any, is untouched); otherwise the adapter passed in,
   * updated in place, or a new one.
   */
  method ParseBtAdapterInfo(mac: string, ret: seq<string>, adapter: AdapterInfo?) returns (r: AdapterInfo?)
    modifies adapter
    ensures r == null <==> Rejected(mac, ret)
    ensures r == null && adapter != null ==> adapter.Snapshot() == old(adapter.Snapshot())
    ensures r != null && adapter != null ==> r == adapter
    ensures r != null && adapter == null ==> fresh(r)
    ensures r != null ==>
      r.Snapshot() == Parsed(mac, ret, if adapter == null then Initial("", "") else old(adapter.Snapshot()))
  {
    if |ret| == 0 || Falsy(Trim(ret[0])) || |ret| == 1 {
      return null;
    }
    var hci := Trim(ret[0]);
    var upperMac := ToUpper(mac);
    var props := CollectProps(ret[1..]);
    var address := Get(props, "address");
    if address.None? || Falsy(address.value) || ToUpper(address.value) != upperMac {
      return null;
    }
    ghost var before := if adapter == null then Initial("", "") else adapter.Snapshot();
    if adapter != null {
      adapter.hci := ToLower(hci);
      adapter.mac := upperMac;
      r := adapter;
    } else {
      r := new AdapterInfo(hci, upperMac);
      UpperOfLower(mac);
    }
    assert r.Snapshot() == before.(hci := ToLower(hci), mac := upperMac);
    ghost var start := r.Snapshot();
    for i := 0 to |props|
      invariant r.Snapshot() == AssignedAll(props[..i], start)
    {
      AssignedAllNext(props, i, start);
      r.Assign(props[i].0, props[i].1);
    }
    assert props[..|props|] == props;
  }
}
