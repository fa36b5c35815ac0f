# bluez-wrappers: the HCI dump reassembler, its codecs and the HCI reply parsers

This project models the core of the PHP library `sharkydog/bluez-wrappers` in
Dafny and proves properties of the model.

**The stream engine.** `HCIDump` reads the text that `hcidump -R` prints:
each packet is a marker and then its bytes as upper-case hex pairs separated
by blanks and line breaks (`Stream.Dumped`). It keeps three fields: the text
buffer `_buffstr`, the binary packet buffer `_buffbin` and `_datalen`, the
number of hex characters the current packet still needs.

- Every chunk is cleaned down to `[0-9A-Fa-f<>]` and appended to the text
  buffer.
- Packets are framed by their H4 indicator (Bluetooth Core Specification
  v5.4, Vol 4, Part A, section 2). In the text these are `<01` for a command
  (header of Vol 4, Part E, section 5.4.1) and `>04` for an event (header of
  section 5.4.4).
- Junk before a marker is dropped. Unwanted packet types are skipped right
  after their header. A packet cut off by a new marker is abandoned.
- Each complete packet goes to a handler (the specific opcode or code, else
  the wildcard `0000`/`00`). When the handler parses it, the listeners of the
  specific key and of the wildcard are called, in ascending subscription-id
  order.

**The supporting pieces.**

- The OGF/OCF opcode codec of `Command`: a 6-bit group and a 10-bit command
  packed into a little-endian 16-bit opcode.
- The packet-type base classes `Command` and `Event`, and their `Unknown`
  fallbacks.
- From `HCI`:
  - the Command Complete result `cmdRet` (Vol 4, Part E, section 7.7.14) and
    its silence flag;
  - the `hcitool` command line `cmdStr`, and the event-mask bytes of
    `setEventMask`;
  - the reply extraction of `cmd`;
  - the `hciconfig` adapter list and the adapter lookup.
- The status-code table of `HCI\Error`.
- The `bt-adapter -i` parser `AdapterInfo::parseBtAdapterInfo`.

**Modules.**

| module | file | models |
|---|---|---|
| `Wrappers` | wrappers.dfy | `Option` |
| `Text` | text.dfy | PHP string built-ins: `hex2bin`, `bin2hex`, `hexdec`, `strtoupper`/`strtolower`, `substr`, falsy strings |
| `Dicts` | dicts.dfy | PHP ordered arrays with string keys |
| `Adapters` | adapter.dfy | `Adapter` |
| `Commands`, `UnknownCommand` | commands.dfy, unknown_command.dfy | `HCIDump\Command`, `HCIDump\Command\Unknown` |
| `Events`, `UnknownEvent` | events.dfy, unknown_event.dfy | `HCIDump\Event`, `HCIDump\Event\Unknown` |
| `Stream` | stream.dfy | one invocation of `_onStdOut`, as functions over values, with its invariant and its framing properties |
| `Dump` | dump.dfy | class `HciDump`: registries, listener removal, `_handlePacket`, `_onStdOut` |
| `HciErrors` | hci_error.dfy | `HCI\Error` |
| `Hci` | hci.dfy | `HCI`: `cmdRet`, `cmdSilenceNext`, `cmdStr`, `cmd`'s reply extraction, `adapters`, `adapter`, `setEventMask`'s mask bytes |
| `AdapterInfos` | adapter_info.dfy | `AdapterInfo::parseBtAdapterInfo` |
| `Chunking` | chunking.dfy | the chunk boundaries of `_onStdOut`: feeding text in pieces is feeding it at once |

**Modelling choices.**

- `_onStdOut` calls itself with `''` to go on with text already buffered.
  - `Stream.Step` is one invocation and `Stream.Drain` repeats it until an
    invocation does not recurse.
  - `Dump.HciDump.OnStdOut` runs the invocations in a `while` loop. The
    measure `2 * |_buffstr| + (1 if _datalen > 0)` falls with every pass.
- Handlers are values: a class's default fields plus its `_parse` as a
  function returning `Option`.
- Listeners are opaque callback tokens.
  - Calling one appends a `Delivery` (subscription id, callback, parsed
    packet) to the field `deliveries`.
  - `HCI::cmdRet`'s error log becomes the field `logged` of `Hci.HciStatic`.
- Process output is a parameter: the lines `exec` returned, or `None` when the
  command failed.
- PHP's per-class identity caches (`_classOpcodes`, `_classCodes`) become
  functions of the class's defaults. The constructors are final, so the
  first construction always sees the defaults.
- A command or event whose length byte is `00` is never
  handed to `_handlePacket`. Its header sets `_datalen` to 0 (line 318 of
  src/HCIDump.php), and `_handlePacket` is called only while continuing a
  packet with `_datalen > 0` (line 244). `Stream.EmptyPayloadNeverHandled`
  proves this.
- `cmdRet` takes `$res->ogf = $opc['ogf']` on a null `$opc`. PHP gives null
  there, which the model writes as `None`. Neither reply nor opcode is
  present in the `NA` result either, so `Hci.NoReply` holds `CommandResult`'s
  defaults `''`.
- `$sts == '00'` is PHP 8's loose comparison: when both sides are numeric
  strings PHP compares them as numbers, otherwise as strings. `Hci.LooseZero` writes this out for the
  strings of at most two characters that `substr` can yield. A reply cut
  short inside the status can therefore read as success (`"0"` equals `"00"`).
  `Hci.HexStatus` shows that for two hex digits this is exactly `"00"`.

## Model

| member | source | states |
|---|---|---|
| `Text.Hex2Bin` | src/HCIDump/Command.php:13 | `hex2bin` succeeds exactly on even-length hex text and yields half as many bytes |
| `Text.Bin2Hex` | src/HCIDump/Command.php:22-23 | `bin2hex` yields two lower-case hex digits per byte |
| `Text.Hex2BinOfBin2Hex` | src/HCIDump/Command.php:12-40 | decoding the hex of any bytes gives those bytes back |
| `Text.Bin2HexOfHex2Bin` | src/HCIDump/Command.php:12-40 | encoding decoded hex gives the input back in lower case |
| `Text.Bin2HexConcat` | src/HCIDump.php:335 | the hex of a concatenation is the concatenation of the hex |
| `Text.Hex2BinConcat` | src/HCIDump.php:231 | decoding two hex texts one after the other decodes their concatenation |
| `Text.ToUpper` | src/HCIDump.php:38 | `strtoupper` keeps the length and upper-cases each ASCII letter |
| `Text.ToLower` | src/Adapter.php:9 | `strtolower` keeps the length and lower-cases each ASCII letter |
| `Text.UpperOfLower` | src/HCIDump.php:42-44 | upper-casing ignores an earlier case change and is idempotent |
| `Text.LowerOfUpper` | src/HCI.php:57 | lower-casing ignores an earlier case change and is idempotent |
| `Text.LowerConcat` | src/HCI.php:57 | `strtolower` of a concatenation is the concatenation of the lower-cased parts |
| `Text.LowerCharKeeps` | src/HCIDump.php:195 | lower-casing changes only letters, and a character is a hex digit exactly when its lower case is a lower-case hex digit, of the same value |
| `Text.Hex2BinOfLower` | src/HCIDump.php:195 | `hex2bin` reads upper- and lower-case hex alike |
| `Text.SpelledHex` | src/HCIDump.php:195 | text whose lower case is `bin2hex` of some bytes is hex that decodes to exactly those bytes |
| `Text.HexDec` | src/HCIDump.php:318 | `hexdec` ignores non-hex characters and is 0 exactly when every hex digit is `0` |
| `Text.NatToHex` | src/HCI.php:121 | `dechex` yields at least one lower-case hex digit and no padding: a leading `0` only in `"0"` itself |
| `Text.HexDecOfNatToHex` | src/HCI.php:121 | `hexdec` inverts `dechex` on naturals |
| `Text.HexDecOfByteHex` | src/HCIDump.php:318 | `hexdec` of two hex digits is the byte `hex2bin` gives |
| `Text.Substr` | src/HCI.php:99-100 | `substr` yields at most `len` characters, and exactly the slice when it is in range |
| `Text.SubstrFrom` | src/HCI.php:105 | `substr` without a length yields the suffix, or `''` beyond the end |
| `Text.Falsy` | src/HCI.php:34 | definition of PHP's falsy strings, `''` and `'0'`, as `!`, `?:` and `empty` test them |
| `Dicts.Get` | src/AdapterInfo.php:28 | `$d[$k] ?? null` is null exactly when no entry has the key, else the value stored under it |
| `Dicts.Put` | src/AdapterInfo.php:25 | storing keeps every key in its place and puts a new key last |
| `Dicts.GetPut` | src/AdapterInfo.php:25 | after storing, the key reads back the new value and every other key its old one |
| `Dicts.PutEntries` | src/HCI.php:45 | storing replaces only the entry under that key |
| `Dicts.PutUnique` | src/HCI.php:45 | storing keeps the keys unique |
| `Dicts.GetSnoc` | src/AdapterInfo.php:39-64 | a key read from a dictionary with one more entry at the end |
| `Dicts.Values` | src/HCI.php:59 | `foreach` visits the values in insertion order |
| `Adapters.NewAdapter` | src/Adapter.php:8-11 | the interface name is stored lower-case and the address upper-case |
| `Adapters.NewAdapterNormalForm` | src/Adapter.php:8-11 | constructing from a constructed adapter's fields changes nothing |
| `Adapters.NewAdapterIgnoresCase` | src/Adapter.php:8-11 | the constructor ignores the case of both arguments |
| `Commands.BinOpcodeToOgfOcf` | src/HCIDump/Command.php:42-55 | null exactly below two bytes; otherwise a one-byte OGF below 64 and a big-endian two-byte OCF below 1024 with `1024*ogf + ocf` equal to the little-endian opcode |
| `Commands.BinOgfOcfToOpcode` | src/HCIDump/Command.php:57-67 | null exactly when OCF has under two bytes; otherwise two bytes, and for a 6-bit OGF and 10-bit OCF the little-endian value `1024*ogf + ocf` |
| `Commands.PackLow16` | src/HCIDump/Command.php:64 | `(ogf << 10) \| ocf` packed with `v` is `1024*ogf + ocf` when the fields fit their widths |
| `Commands.Ord` | src/HCIDump/Command.php:62 | definition of `ord`: the first byte, 0 for `''` |
| `Commands.BitOr` | src/HCIDump/Command.php:64 | definition of `\|` on non-negative integers, bit by bit; `Commands.BitOrDisjoint` states its value |
| `Commands.BitOrDisjoint` | src/HCIDump/Command.php:64 | or-ing a multiple of 2^k with a number below 2^k is adding them |
| `Commands.BinOpcodeRoundTrip` | src/HCIDump/Command.php:42-67 | every two-byte opcode decodes and encodes back to itself |
| `Commands.BinFieldsRoundTrip` | src/HCIDump/Command.php:42-67 | a 6-bit OGF and a 10-bit OCF encode and decode back to themselves |
| `Commands.LE16` | src/HCIDump/Command.php:43 | `unpack('v')` is a 16-bit number whose low byte is the first byte and whose high byte is the second |
| `Commands.BE16` | src/HCIDump/Command.php:58 | `unpack('n')` is a 16-bit number whose high byte is the first byte and whose low byte is the second |
| `Commands.LE16Injective` | src/HCIDump/Command.php:43 | two 2-byte strings with the same little-endian value are equal |
| `Commands.HexOpcodeToOgfOcf` | src/HCIDump/Command.php:12-25 | null exactly on odd-length or non-hex text and under four digits; otherwise two and four lower-case hex digits that decode to an OGF below 64 and an OCF below 1024 with `1024*ogf + ocf` equal to the first two opcode bytes read little-endian |
| `Commands.HexOgfOcfToOpcode` | src/HCIDump/Command.php:27-40 | null exactly when a field is not even-length hex or OCF is under four digits; otherwise four lower-case hex digits |
| `Commands.HexOpcodeRoundTrip` | src/HCIDump/Command.php:12-40 | four hex digits decode to fields that encode back to the same digits in lower case |
| `Commands.Opcode` | src/HCIDump/Command.php:69-77 | the class identity is four lower-case hex digits, and `0000` when the defaults do not encode |
| `Commands.OpcodeIsWireOrder` | src/HCIDump/Command.php:71 | the identity is the opcode `1024*ogf + ocf` in little-endian byte order |
| `Commands.DefaultOpcodeIsWildcard` | src/HCIDump/Command.php:8-9 | the defaults `00`/`0000` give the identity `0000` |
| `Commands.ResetOpcode` | src/HCIDump/Command.php:69-77 | OGF `03` and OCF `0003` give the identity `030c` |
| `Commands.Parse` | src/HCIDump/Command.php:79-85 | null exactly when `_parse` rejects; otherwise its result with `params` set to the payload's lower-case hex |
| `Commands.ParseReturn` | src/HCIDump/Command.php:87-92 | null exactly when `_parseReturn` rejects; otherwise its result unchanged |
| `Commands.BaseParse` | src/HCIDump/Command.php:94-96 | the base `_parse` rejects everything |
| `Commands.BaseParseReturn` | src/HCIDump/Command.php:98-100 | the base `_parseReturn` rejects everything |
| `Commands.BaseClassRejects` | src/HCIDump/Command.php:79-100 | a class keeping the base methods never yields a command from either `parse` or `parseReturn` |
| `UnknownCommand.ParseUnknown` | src/HCIDump/Command/Unknown.php:7-17 | rejects exactly below two opcode bytes; otherwise 2- and 4-digit `ogf`/`ocf` that encode back to the opcode seen |
| `UnknownCommand.UnknownIsWildcard` | src/HCIDump/Command.php:8-9 | the Unknown command's identity is `0000` |
| `UnknownCommand.UnknownParseResult` | src/HCIDump/Command/Unknown.php:12-16 | through `parse` the result carries the decoded fields and the payload hex; `parseReturn` rejects |
| `Events.Code` | src/HCIDump/Event.php:11-19 | the class identity is `code ?: '00'`: never falsy, the default when it is truthy |
| `Events.DefaultFilter` | src/HCIDump/Event.php:21-23 | `filter` returns its callback unchanged |
| `Events.BaseParse` | src/HCIDump/Event.php:33-35 | the base `_parse` rejects everything |
| `Events.Parse` | src/HCIDump/Event.php:25-31 | null exactly when `_parse` rejects; otherwise its result with `params` set to the payload's hex |
| `Events.BaseClassRejects` | src/HCIDump/Event.php:25-35 | a class keeping the base `_parse` never yields an event |
| `UnknownEvent.ParseUnknown` | src/HCIDump/Event/Unknown.php:7-11 | never rejects; the result's `code` is the lower-case hex of the code bytes seen |
| `UnknownEvent.UnknownIsWildcard` | src/HCIDump/Event.php:8 | the Unknown event's identity is `00` |
| `UnknownEvent.UnknownParseResult` | src/HCIDump/Event.php:25-31 | through `parse` the result is a new event with the code and the payload as hex |
| `Stream.Sanitize` | src/HCIDump.php:194-197 | only characters of `[0-9A-Fa-f<>]` are kept |
| `Stream.SanitizeClean` | src/HCIDump.php:194-197 | clean text passes unchanged |
| `Stream.SanitizeExactlyClean` | src/HCIDump.php:194-197 | text passes unchanged exactly when it is clean |
| `Stream.SanitizeConcat` | src/HCIDump.php:194-197 | cleaning two chunks one after the other equals cleaning them joined |
| `Stream.FirstMarker` | src/HCIDump.php:207-212 | the position of the first `<` or `>`, with none before it; none exactly when the text has no marker |
| `Stream.FromMarker` | src/HCIDump.php:207-212 | the text from the first marker on is empty or starts with a marker |
| `Stream.BeforeMarker` | src/HCIDump.php:207-212 | the text before the first marker holds none and, followed by the rest, is the text |
| `Stream.HeaderLength` | src/HCIDump.php:264-278 | 9 exactly after `<01`, 7 exactly after `>04`, else 0 |
| `Stream.EvenFloor` | src/HCIDump.php:225-226 | the largest even count not above the text available |
| `Stream.Step` | src/HCIDump.php:199-327 | an invocation that recurses makes the measure smaller |
| `Stream.Continue` | src/HCIDump.php:214-247 | a recursing continuation never lengthens the buffer and ends the packet |
| `Stream.Frame` | src/HCIDump.php:248-321 | framing never completes a packet, and recursion always shortens the buffer |
| `Stream.Header` | src/HCIDump.php:295-320 | an accepted or skipped header always shortens the buffer and recurses |
| `Stream.PacketsOf` | src/HCIDump.php:244 | an invocation hands over no packet or exactly one |
| `Stream.DrainStep` | src/HCIDump.php:323-327 | the self-call: the packets of one invocation come before those of the invocations it triggers |
| `Stream.Drain` | src/HCIDump.php:199-327 | definition: invocations until one does not recurse, their packets in order; its properties are `Stream.DrainStep`, `Stream.DrainPreservesValid`, `Stream.DrainEndsAtRest` and `Chunking.DrainAppend` |
| `Stream.AcceptedHeader` | src/HCIDump.php:314-318 | an accepted header decodes; `_buffbin` then holds marker and header, and `_datalen` is twice its length byte |
| `Stream.ConsumedPayload` | src/HCIDump.php:231-232 | an even run of clean text decodes to half as many bytes |
| `Stream.ContinuationPreservesValid` | src/HCIDump.php:214-247 | continuing a packet keeps the invariant, and a completed packet is well formed |
| `Stream.HeaderValid` | src/HCIDump.php:295-320 | reading a header leaves `_datalen` even and `_buffbin` holding a header whose length byte counts what is still wanted |
| `Stream.HeaderPreservesValid` | src/HCIDump.php:248-321 | framing keeps the invariant and never completes a packet |
| `Stream.StepPreservesValid` | src/HCIDump.php:199-327 | every invocation keeps the invariant: clean text, even `_datalen`, and a pending header in `_buffbin` while `_datalen > 0`; every packet handed over matches its length byte |
| `Stream.DrainPreservesValid` | src/HCIDump.php:193-328 | the whole chain of self-calls keeps the invariant and hands over only well-formed packets |
| `Stream.AppendPreservesValid` | src/HCIDump.php:195-197 | appending a cleaned chunk keeps the invariant |
| `Stream.Valid` | src/HCIDump.php:193-328 | definition of the invariant between calls: clean text, even `_datalen`, and while it is positive a `_buffbin` header announcing exactly the payload still wanted; kept by `Stream.StepPreservesValid` and `Stream.FeedPreservesValid` |
| `Stream.Feed` | src/HCIDump.php:193-328 | definition: clean and append the chunk, then drain; its properties are `Stream.FeedPreservesValid`, `Stream.FeedNothing`, `Stream.FeedEmptyAfterFeed`, `Chunking.FeedSplit` and `Chunking.FeedAllJoined` |
| `Stream.FeedNothing` | src/HCIDump.php:193-197 | `_onStdOut('')` appends nothing |
| `Stream.FeedPreservesValid` | src/HCIDump.php:193-328 | `_onStdOut` on any chunk keeps the invariant and hands over only packets of exactly the announced length, which is never zero |
| `Stream.StopIsAtRest` | src/HCIDump.php:199-327 | a buffer left by an invocation that did not recurse is waiting for input: one more invocation changes nothing |
| `Stream.ContinueStopIsAtRest` | src/HCIDump.php:214-247 | a packet in progress that waits for more input leaves text on which one more invocation changes nothing |
| `Stream.FrameStopIsAtRest` | src/HCIDump.php:248-284 | with no packet in progress, what is kept for more input is left unchanged by one more invocation |
| `Stream.DrainEndsAtRest` | src/HCIDump.php:193-328 | after the self-calls end, one more invocation changes nothing |
| `Stream.FeedEmptyAfterFeed` | src/HCIDump.php:193-328 | right after a chunk, `_onStdOut('')` changes nothing and dispatches nothing |
| `Stream.FirstMarkerAfterJunk` | src/HCIDump.php:207-212 | marker-free text in front shifts the first marker by its length |
| `Stream.JunkIgnored` | src/HCIDump.php:248-262 | with no packet in progress, text before the first marker makes no difference at all |
| `Stream.ShortMarkerKept` | src/HCIDump.php:258-262 | a marker with fewer than 3 characters from it on is kept and the invocation waits |
| `Stream.UnknownIndicatorSkipped` | src/HCIDump.php:273-277 | any marker not followed by `01`/`04` is dropped alone and parsing goes on after it |
| `Stream.PartialHeaderKept` | src/HCIDump.php:280-284 | an incomplete header is kept and the invocation waits |
| `Stream.InnerMarkerRestarts` | src/HCIDump.php:286-293 | a marker inside the header region restarts parsing at the first such marker |
| `Stream.HeaderInnerMarker` | src/HCIDump.php:286-293 | the header's own step: the new buffer starts at the first marker inside the header, with no packet in progress and recursion requested |
| `Stream.UnhandledHeaderSkipped` | src/HCIDump.php:295-312 | with no handler for the key or the wildcard only the header is consumed and no packet starts |
| `Stream.Handled` | src/HCIDump.php:295-305 | definition of `$handle`: a handler for the upper-cased opcode or code, or the wildcard `0000`/`00`, and false for any other header; stated by `Stream.UnhandledHeaderSkipped` and `Stream.HandledHeaderStartsPacket` |
| `Stream.StepAtHeader` | src/HCIDump.php:280-320 | a complete header is processed by the header rule |
| `Stream.HandledHeaderStartsPacket` | src/HCIDump.php:314-320 | a handled header leaves `_buffbin` = marker byte + decoded header and `_datalen` = 2 × the length byte |
| `Stream.PayloadContinues` | src/HCIDump.php:225-238 | with too little text, the even part is decoded and appended and `_datalen` falls by exactly that much |
| `Stream.PayloadCompletes` | src/HCIDump.php:225-246 | with enough text before the next marker, the packet is completed, handed over, and the text up to the marker dropped |
| `Stream.PacketCutOff` | src/HCIDump.php:214-219 | a marker arriving before the payload is complete abandons the packet and restarts at the marker |
| `Stream.EmptyPayloadNeverHandled` | src/HCIDump.php:214-318 | a header with length byte `00` starts no packet, and nothing the buffer yields is an empty packet |
| `Stream.HexHasNoMarker` | src/HCIDump.php:195 | hex text in either case is clean and holds no marker |
| `Stream.WholePayload` | src/HCIDump.php:214-247 | a payload spelled in either letter case, arriving whole, completes the packet with exactly its bytes and empties the buffers |
| `Stream.PrintedLayout` | src/HCIDump.php:253-256 | where the indicator, id, length byte and payload sit in the unspaced lower-case text `bin2hex` gives for a packet |
| `Stream.SpelledLayout` | src/HCIDump.php:195-278 | the same packet in any letter case keeps its marker and indicator digits, is hex after the marker, its header hex decodes to the header bytes, and id and payload are spelled as printed up to case |
| `Stream.PrintedIsClean` | src/HCIDump.php:195-212 | a marker followed by hex in either case is clean and starts at its marker |
| `Stream.PrintedHeaderStarts` | src/HCIDump.php:295-320 | a handled header whose hex (either case) decodes to the header bytes starts its packet with exactly those bytes |
| `Stream.CommandFramed` | src/HCIDump.php:193-328 | junk followed by a command in either letter case (its lower case is the printed text) with a handled opcode yields exactly that command packet and empty buffers |
| `Stream.QuietStep` | src/HCIDump.php:320 | an invocation that recurses without handing on a packet leaves the outcome to the next invocation |
| `Stream.EventFramed` | src/HCIDump.php:193-328 | junk followed by an event in either letter case with a handled code yields exactly that event packet and empty buffers |
| `Stream.EventSpelled` | src/HCIDump.php:265-305 | such an event starts with `>04`, has a 7-character header that decodes to its bytes, and its code is handled |
| `Stream.SanitizeBlank` | src/HCIDump.php:195 | text with no hex digit and no marker cleans to nothing |
| `Stream.UpperPair` | src/HCIDump.php:195 | one byte in upper-case hex is clean and lower-cases to `bin2hex` of it |
| `Stream.DumpedCleans` | src/HCIDump.php:195 | bytes written as `hcidump -R` writes them (upper-case pairs, each after its own blanks) clean to text whose lower case is `bin2hex` of the bytes |
| `Stream.MarkedDumpCleans` | src/HCIDump.php:195 | the same with the marker in front and blanks after |
| `Stream.DumpedSpellsPrinted` | src/HCIDump.php:195 | a packet as `hcidump -R` prints it cleans to a spelling of its printed text, so the framing lemmas apply to it |
| `Stream.MarkedClean` | src/HCIDump.php:195 | cleaning keeps a marker and drops trailing blanks |
| `Stream.CommandHeaderStep` | src/HCIDump.php:295-320 | the first invocation on a handled command in either letter case starts a packet: marker, indicator, opcode and length in binary, twice the length in hex characters wanted |
| `Stream.EventHeaderStep` | src/HCIDump.php:295-320 | the first invocation on a handled event in either letter case starts a packet: marker, indicator, code and length in binary, twice the length in hex characters wanted |
| `Chunking.FirstMarkerKept` | src/HCIDump.php:207-212 | appended text does not move a marker already in the buffer |
| `Chunking.MarkerKept` | src/HCIDump.php:207-212 | with a marker in the buffer, appended text leaves the part before it unchanged and joins the part from it on |
| `Chunking.MarkerAfter` | src/HCIDump.php:207-212 | with no marker in the buffer, the part before the first marker is the buffer and the appended text up to its marker |
| `Chunking.JunkAnywhere` | src/HCIDump.php:248-262 | with no packet in progress, marker-free text in front of anything makes no difference to the whole chain of invocations |
| `Chunking.ContinueAgainAppend` | src/HCIDump.php:214-247 | a packet cut off or completed before a marker does the same with more text behind, which follows the marker |
| `Chunking.HeaderAppend` | src/HCIDump.php:264-320 | a whole buffered header is decided on its own characters, whatever follows |
| `Chunking.FrameAgainAppend` | src/HCIDump.php:248-321 | framing that recurses does the same with more text behind, which it passes on |
| `Chunking.StepAgainAppend` | src/HCIDump.php:199-327 | an invocation that recurses does the same with more text behind, which it passes on to the next invocation |
| `Chunking.ContinueIsResume` | src/HCIDump.php:214-247 | continuing a packet depends on the buffer only through its split at the first marker |
| `Chunking.ResumeShift` | src/HCIDump.php:225-238 | payload characters decoded now or later, when wanted, give the same invocation |
| `Chunking.PendingSplit` | src/HCIDump.php:214-238 | decoding part of the payload now and the rest with appended text is decoding it all with that text |
| `Chunking.ContinueStopAppend` | src/HCIDump.php:225-238 | a packet waiting for payload: appending first and then draining is draining what it kept with the text appended |
| `Chunking.ContinueCompleteAppend` | src/HCIDump.php:239-247 | a packet completed with no marker behind it is handed on first, and the appended text is then read from empty buffers |
| `Chunking.FrameStopAppend` | src/HCIDump.php:249-284 | waiting for a marker or the rest of a header: appending first and then draining is draining what was kept with the text appended |
| `Chunking.StepStopAppend` | src/HCIDump.php:199-327 | an invocation that stops: appending first and draining is its packet, then draining what it kept with the text appended |
| `Chunking.DrainAppend` | src/HCIDump.php:199-327 | draining, appending and draining again hands over the same packets in the same order, and leaves the same fields, as appending first and draining once |
| `Chunking.FeedSplit` | src/HCIDump.php:193-328 | `_onStdOut($x)` then `_onStdOut($y)` hands over the packets of `_onStdOut($x.$y)` in the same order and leaves the same three fields |
| `Chunking.FeedAllJoined` | src/HCIDump.php:193-328 | however the output is cut into chunks, one call per chunk gives the packets and fields of one call on the whole |
| `Chunking.SanitizeMarkers` | src/HCIDump.php:194-197 | cleaning adds no marker |
| `Chunking.PrintedClean` | src/HCIDump.php:194-197 | the unspaced lower-case text `bin2hex` gives for a packet passes cleaning unchanged |
| `Chunking.CommandFramedInChunks` | src/HCIDump.php:193-328 | junk and any text that cleans to a spelling of a command (in particular `hcidump -R`'s spaced upper-case form, by `Stream.DumpedSpellsPrinted`) with a handled opcode, cut into chunks anywhere, yield exactly that command packet and empty buffers |
| `Chunking.EventFramedInChunks` | src/HCIDump.php:193-328 | junk and any text that cleans to a spelling of an event (in particular `hcidump -R`'s spaced upper-case form) with a handled code, cut into chunks anywhere, yield exactly that event packet and empty buffers |
| `Dump.WithCommandHandler` | src/HCIDump.php:37-41 | the handler is stored under the upper-cased opcode unless that key is taken; other entries stay |
| `Dump.LookupCommandHandler` | src/HCIDump.php:42-44 | lookup by the upper-cased opcode |
| `Dump.WithEventHandler` | src/HCIDump.php:46-50 | no change when the upper-cased code is taken; otherwise stored under the raw code |
| `Dump.LookupEventHandler` | src/HCIDump.php:51-53 | lookup by the upper-cased code |
| `Dump.CommandHandlerFound` | src/HCIDump.php:37-44 | a newly added command handler is found by its opcode in either case |
| `Dump.CommandHandlerFirstWins` | src/HCIDump.php:39 | a second handler for the same opcode is ignored |
| `Dump.CommandLookupIgnoresCase` | src/HCIDump.php:43 | command lookup ignores case |
| `Dump.EventLookupIgnoresCase` | src/HCIDump.php:52 | event lookup ignores case |
| `Dump.UpperEventHandlerFirstWins` | src/HCIDump.php:46-50 | for an upper-case code a second handler is ignored |
| `Dump.LowerEventCodeNeverFound` | src/HCIDump.php:46-53 | a handler whose code has lower-case letters is never found by lookup |
| `Dump.LowerEventCodeOverwritten` | src/HCIDump.php:48-49 | for such a code a second handler replaces the first |
| `Dump.WithListener` | src/HCIDump.php:63-64 | the bucket is created if missing and the callback stored under the new id; everything else stays |
| `Dump.WithoutId` | src/HCIDump.php:92 | the id is removed from one bucket and the other ids stay |
| `Dump.WithoutListener` | src/HCIDump.php:90-102 | the id is gone from every bucket, empty buckets are gone, and every other subscription stays |
| `Dump.RemoveListener` | src/HCIDump.php:91-97 | the `foreach` over the buckets computes `WithoutListener` |
| `Dump.RemovedInStep` | src/HCIDump.php:92-96 | one pass of the `foreach`: the bucket loses the id and is dropped exactly when that empties it |
| `Dump.AddCommandListenerOk` | src/HCIDump.php:59-72 | a new command listener gets an id in no bucket of either direction, and the registry invariant holds |
| `Dump.AddedSingle` | src/HCIDump.php:63-64 | the fresh id lands in one bucket only, so no id is under two keys |
| `Dump.AddedApart` | src/HCIDump.php:63-64 | the fresh id is not subscribed in the other direction |
| `Dump.AddEventListenerOk` | src/HCIDump.php:74-88 | a new event listener gets an id in no bucket of either direction, and the registry invariant holds |
| `Dump.RemoveCommandListenerOk` | src/HCIDump.php:90-102 | removal keeps the registry invariant |
| `Dump.RemoveEventListenerOk` | src/HCIDump.php:104-116 | removal keeps the registry invariant |
| `Dump.Resolve` | src/HCIDump.php:337 | the specific handler, else the wildcard's, else none |
| `Dump.Merged` | src/HCIDump.php:344 | the listeners of the key and of the wildcard, the key's winning on a shared id |
| `Dump.AscendingSorted` | src/HCIDump.php:345 | the ids in strictly ascending order, each exactly once |
| `Dump.SortIds` | src/HCIDump.php:345 | `ksort` of the merged listeners gives their ids in ascending order |
| `Dump.CallAll` | src/HCIDump.php:347-349 | one call per id, in the order given |
| `Dump.ListenerCalls` | src/HCIDump.php:344-349 | the `foreach` calls each listener once in ascending id order |
| `Dump.NotifyInOrder` | src/HCIDump.php:344-349 | the calls are exactly one per listener, in strictly ascending id order, all with the same packet |
| `Dump.CommandDispatch` | src/HCIDump.php:333-352 | no handler, or a rejected `parse` of the payload from byte 5, calls nobody; otherwise every listener of the opcode and of the wildcard once, in ascending id order |
| `Dump.EventDispatch` | src/HCIDump.php:354-373 | no handler, or a rejected `parse` of the payload from byte 4, calls nobody; otherwise every listener of the code and of the wildcard once, in ascending id order |
| `Dump.Dispatch` | src/HCIDump.php:330-374 | definition of the listener calls `_handlePacket` makes for one packet; stated by `Dump.CommandDispatch` and `Dump.EventDispatch` |
| `Dump.DispatchAll` | src/HCIDump.php:244 | definition: the calls of each packet in turn; stated by `Dump.DispatchAllCons` and used by `Dump.HciDump.OnStdOut` |
| `Dump.DispatchAllCons` | src/HCIDump.php:244 | the calls of a packet come before those of the later packets |
| `Dump.DispatchAllConcat` | src/HCIDump.php:244 | the calls for two runs of packets are those of the first run, then those of the second |
| `Dump.FeedTwiceDispatch` | src/HCIDump.php:193-328 | with the same handlers and listeners, two calls of `_onStdOut` make the calls and leave the fields of one call on the joined chunks; with `Dump.HciDump.OnStdOut`'s contract this carries over to `deliveries` |
| `Dump.FeedOneStep` | src/HCIDump.php:193-328 | `_onStdOut($chunk)` is one invocation on the extended buffer, then `_onStdOut('')` when that invocation recurses; the listener calls split the same way |
| `Dump.HciDump.constructor` | src/HCIDump.php:29-31 | no handlers, no listeners, counter 0, empty buffers |
| `Dump.HciDump.AddCommandHandler` | src/HCIDump.php:37-41 | the command handler map becomes `WithCommandHandler` of the old one |
| `Dump.HciDump.GetCommandHandler` | src/HCIDump.php:42-44 | the handler under the upper-cased opcode |
| `Dump.HciDump.AddEventHandler` | src/HCIDump.php:46-50 | the event handler map becomes `WithEventHandler` of the old one |
| `Dump.HciDump.GetEventHandler` | src/HCIDump.php:51-53 | the handler under the upper-cased code |
| `Dump.HciDump.OnCommand` | src/HCIDump.php:59-72 | the id returned is the incremented shared counter; the listener is stored under it and the class's opcode; the handler is added |
| `Dump.HciDump.ListenCommand` | src/HCIDump.php:63-64 | stores the callback under the next id, which no bucket held before |
| `Dump.HciDump.OnEvent` | src/HCIDump.php:74-88 | the id returned is the incremented shared counter; the filtered listener is stored under it and the class's code; the handler is added |
| `Dump.HciDump.ListenEvent` | src/HCIDump.php:79-80 | stores the callback under the next id, which no bucket held before |
| `Dump.HciDump.RemoveCommandListener` | src/HCIDump.php:90-102 | the command listeners become `WithoutListener` of the old ones and the invariant holds |
| `Dump.HciDump.RemoveEventListener` | src/HCIDump.php:104-116 | the event listeners become `WithoutListener` of the old ones and the invariant holds |
| `Dump.HciDump.HandlePacket` | src/HCIDump.php:330-374 | the calls made are those `Dispatch` gives for the binary buffer |
| `Dump.HciDump.Notify` | src/HCIDump.php:347-349 | the calls made are one per listener in ascending id order |
| `Dump.HciDump.StepOnce` | src/HCIDump.php:199-327 | the fields move as `Step` says and a completed packet is dispatched |
| `Dump.HciDump.ContinueOnce` | src/HCIDump.php:214-247 | the fields move as `Continue` says |
| `Dump.HciDump.TakePayload` | src/HCIDump.php:225-246 | the fields move as `Continue` says once the payload is there |
| `Dump.HciDump.FrameOnce` | src/HCIDump.php:248-321 | the fields move as `Frame` says |
| `Dump.HciDump.OnStdOut` | src/HCIDump.php:193-328 | keeps the invariant; the fields end as `Feed` says, and every packet completed is dispatched in order |
| `HciErrors.NormalCode` | src/HCI/Error.php:16 | `strtoupper($code) ?: 'UN'`: never falsy, the upper-cased code when that is truthy, `UN` for an empty code |
| `HciErrors.NewError` | src/HCI/Error.php:15-18 | the normalised code, its table text, else `Unknown` |
| `HciErrors.NewErrorIgnoresCase` | src/HCI/Error.php:16-17 | the code is read without regard to case |
| `HciErrors.KnownCodes` | src/HCI/Error.php:5-10 | a code has its own text exactly when its upper case is `NA`, `0C`, `11` or `12` |
| `HciErrors.TableExamples` | src/HCI/Error.php:5-17 | `0c` is Command Disallowed, `na` is No response, and `''` is `UN`, Unknown |
| `Hci.Status` | src/HCI.php:100 | at most 2 characters, and `00` without a status byte |
| `Hci.CmdResultOf` | src/HCI.php:92-106 | no or empty reply gives `NA`; otherwise `ok` exactly when the status is loosely `'00'`, `err` exactly when not ok, and the opcode fields exactly when characters 2-5 decode, then the OGF and OCF they decode to; `ret` is the text after the status (empty without a status byte) |
| `Hci.HexStatus` | src/HCI.php:102 | two hex digits compare equal to `'00'` exactly when they are `00` |
| `Hci.LooseZero` | src/HCI.php:102 | definition of `$sts == '00'` for the strings of at most two characters `substr` yields: numeric strings equal to 0; `Hci.HexStatus` states it for hex digits |
| `Hci.ByteHexZero` | src/HCI.php:102 | a byte's hex is `00` exactly when it is 0 |
| `Hci.CommandCompleteReply` | src/HCI.php:88-114 | for any hex text (either case) that decodes to a Command Complete reply (section 7.7.14): ok exactly when the status is 0; the error is that of the status's hex; OGF/OCF decoded from the opcode; `ret` decodes to exactly the return parameters |
| `Hci.SpelledReply` | src/HCI.php:99-105 | in any spelling of the reply the `substr` calls pick hex that decodes to the opcode, the status and the return parameters |
| `Hci.SpelledStatus` | src/HCI.php:102-106 | a status spelled in either case is loosely `'00'` exactly when it is zero and gives the same error |
| `Hci.SpelledOpcode` | src/HCI.php:99-104 | an opcode spelled in either case decodes to the fields of its bytes |
| `Hci.LowerReply` | src/HCI.php:99-105 | a reply spelling lower-cases to the hex of its four parts |
| `Hci.ReplyHex` | src/HCI.php:99-105 | where the fields of a Command Complete reply sit in its hex |
| `Hci.ReplyFields` | src/HCI.php:99-105 | the `substr` calls pick the opcode, status and return parameters |
| `Hci.ShortReply` | src/HCI.php:100-106 | a reply that ends before the status gives the error `UN`, Unknown |
| `Hci.HciStatic.constructor` | src/HCI.php:10 | the silence flag starts cleared, nothing logged |
| `Hci.HciStatic.CmdSilenceNext` | src/HCI.php:116-118 | sets the flag and logs nothing |
| `Hci.HciStatic.CmdRet` | src/HCI.php:88-114 | returns `CmdResultOf` and clears the flag; a missing or falsy reply (the `NA` result) returns before the log, and an answered command is logged exactly when its result is an error and the flag was not set |
| `Hci.DecHex` | src/HCI.php:121 | `dechex`: unpadded lower-case hex (a leading `0` only in `"0"`) of the value modulo 2^64 |
| `Hci.Implode` | src/HCI.php:125 | one part implodes to itself |
| `Hci.DecHexAll` | src/HCI.php:124 | `array_map('dechex', ...)` element by element |
| `Hci.ImplodeArgs` | src/HCI.php:123-126 | `' 0x' . implode(' 0x', ...)` is one ` 0x<hex>` per parameter |
| `Hci.ArgsConcat` | src/HCI.php:120-129 | the arguments of two lists joined are their arguments joined |
| `Hci.CmdStrLayout` | src/HCI.php:120-129 | `hcitool -i <hci> cmd`, then ` 0x<hex>` for OGF, OCF and each parameter in order |
| `Hci.CmdStr` | src/HCI.php:120-129 | definition of the command line; its layout is stated by `Hci.CmdStrLayout` |
| `Hci.FromLE` | src/HCI.php:158 | a little-endian byte string's value is below 256^length |
| `Hci.FromLEBytes` | src/HCI.php:158 | encoding a value in n little-endian bytes and reading them back gives the value |
| `Hci.LEBytes` | src/HCI.php:158 | `n` little-endian bytes of a value; `Hci.FromLEBytes` and `Hci.LEBytesFrom` state its value |
| `Hci.LEBytesFrom` | src/HCI.php:158 | reading bytes and encoding the value again gives the bytes |
| `Hci.EventMaskBytes` | src/HCI.php:158 | `pack('P')`: eight bytes whose little-endian value is the mask modulo 2^64 |
| `Hci.EventMaskOfBytes` | src/HCI.php:158 | every eight bytes are the mask bytes of the signed 64-bit mask they encode |
| `Hci.SetEventMaskCmd` | src/HCI.php:157-159 | the command line is `cmd 0x3 0x1` followed by the eight mask bytes in order |
| `Hci.HexOnly` | src/HCI.php:139 | the result is hex and no longer than the line; hex text passes unchanged |
| `Hci.HexOnlyChar` | src/HCI.php:139 | a hex digit is kept and any other character removed |
| `Hci.HexOnlyConcat` | src/HCI.php:139 | cleaning a concatenation is cleaning each part, so with `Hci.HexOnlyChar` the line's own hex digits are kept, in order, and nothing else |
| `Hci.HexOnlyAll` | src/HCI.php:137-141 | concatenated cleaned lines are hex |
| `Hci.ReplyStart` | src/HCI.php:142 | the first line starting `> HCI Event: 0x0e`, and none exactly when no line does |
| `Hci.ReplyText` | src/HCI.php:136-149 | the reply is hex, and `''` when no line starts `> HCI Event: 0x0e` |
| `Hci.ReplyStartStep` | src/HCI.php:142 | one more line keeps an event line already found, or is the first event line itself |
| `Hci.HexOnlyAllStep` | src/HCI.php:139-141 | one more line appends exactly its own cleaned text |
| `Hci.Scan` | src/HCI.php:137-146 | the loop yields no reply exactly when no line starts `> HCI Event: 0x0e`, and otherwise hex |
| `Hci.ScanStep` | src/HCI.php:137-146 | one more line leaves the reply as it was before the event line and appends its hex after |
| `Hci.ExtractReply` | src/HCI.php:136-149 | the loop computes `ReplyText` |
| `Hci.ReplyAfterEventLine` | src/HCI.php:136-149 | the reply is the cleaned concatenation of exactly the lines after the first event line |
| `Hci.NameRun` | src/HCI.php:35 | the longest run of characters other than whitespace and `:` |
| `Hci.HeaderName` | src/HCI.php:35-37 | a header line's name is non-empty, free of whitespace and `:`, and followed by `:` |
| `Hci.HeaderNameOf` | src/HCI.php:35 | `name:` at the start of a line yields that name |
| `Hci.AddressAt` | src/HCI.php:41 | a `BD Address:` match at a position yields a MAC address |
| `Hci.AddressIn` | src/HCI.php:41 | none exactly when no position from `from` on matches; otherwise the MAC address of the leftmost matching position |
| `Hci.AddressOfHciconfigLine` | src/HCI.php:41 | hciconfig's `\tBD Address: <mac>` line yields that MAC address |
| `Hci.AdaptersOf` | src/HCI.php:25-49 | null exactly when `hciconfig` failed or printed nothing |
| `Hci.ListAdapters` | src/HCI.php:30-49 | the loop computes `AdaptersOf` |
| `Hci.ListStep` | src/HCI.php:33-47 | definition of one pass of the `foreach`; `Hci.ListAdapters` runs it line by line |
| `Hci.ListFrom` | src/HCI.php:33-47 | definition: the passes over the lines in order; `Hci.ListAdapters` computes it and `Hci.AdaptersWellFormed` states its result |
| `Hci.UpperMac` | src/Adapter.php:10 | an upper-cased MAC address is still one |
| `Hci.PutWellFormed` | src/HCI.php:45 | storing a new adapter keeps the list well formed |
| `Hci.AdaptersWellFormed` | src/HCI.php:30-49 | keys are unique, each adapter is named by its key lower-cased and carries a MAC address |
| `Hci.AdapterBlock` | src/HCI.php:33-47 | a header line, lines without an address, then an address line store that adapter under that name |
| `Hci.PendingStays` | src/HCI.php:40-43 | after a header, lines without an address change nothing |
| `Hci.FirstMatch` | src/HCI.php:59-69 | the first adapter matching by name or lower-cased address, and none exactly when none matches |
| `Hci.Matches` | src/HCI.php:63 | definition: the query equals the name or the lower-cased address; `Hci.FirstMatch` and `Hci.LookupFinds` are stated with it |
| `Hci.LookupAdapter` | src/HCI.php:52-69 | the given list, else the listed adapters, is searched with the lower-cased query; null when no list |
| `Hci.LookupIgnoresCase` | src/HCI.php:57 | the query's case does not matter |
| `Hci.LookupFinds` | src/HCI.php:57-66 | a constructed adapter is found by its name and by its address |
| `AdapterInfos.Initial` | src/AdapterInfo.php:5-11 | the declared defaults with the case-normalised name and address |
| `AdapterInfos.Trim` | src/AdapterInfo.php:14 | `trim(' []')` leaves no space or bracket at either end, is `''` exactly for text made only of them, and is the text with only spaces and brackets removed before and after it |
| `AdapterInfos.TrimHeading` | src/AdapterInfo.php:14 | the heading `[hci0]` yields `hci0` |
| `AdapterInfos.ToInt` | src/AdapterInfo.php:48-60 | `(int)` of a digit string is its decimal value |
| `AdapterInfos.DigitRun` | src/AdapterInfo.php:48-60 | the length of the maximal run of decimal digits from a position |
| `AdapterInfos.ToIntOf` | src/AdapterInfo.php:48-60 | `(int)` of white space, an optional sign and a maximal run of digits is the signed decimal value of the digits, whatever follows them |
| `AdapterInfos.ToIntNoDigits` | src/AdapterInfo.php:48-60 | `(int)` is 0 when no digit follows the white space and optional sign |
| `AdapterInfos.MarkedValue` | src/AdapterInfo.php:48-60 | digits followed by the space left before a `[rw]` marker read as their decimal value |
| `AdapterInfos.MarkedValues` | src/AdapterInfo.php:48-60 | the flag and timeout values `1 `, `0 ` and `180 ` read as 1, 0 and 180 |
| `AdapterInfos.PropLine` | src/AdapterInfo.php:22-25 | a line is skipped exactly when it has no colon, starts with one, or has its only colon last; otherwise it yields a lower-case key and a non-empty value |
| `AdapterInfos.StripMarker` | src/AdapterInfo.php:22 | the value keeps a non-empty prefix, dropping only a trailing `[r?w?]` |
| `AdapterInfos.ColonAt` | src/AdapterInfo.php:22 | the first colon from a position on, with none exactly when there is none |
| `AdapterInfos.MarkerLength` | src/AdapterInfo.php:22 | the length of a trailing `[r?w?]` with something before it, else 0 |
| `AdapterInfos.StripMarkerOf` | src/AdapterInfo.php:22 | a value followed by `[rw]`, `[r]`, `[w]`, `[]` or nothing yields the value |
| `AdapterInfos.KeyOf` | src/AdapterInfo.php:22 | the key is the text between leading spaces and the first `:` |
| `AdapterInfos.PropLineOf` | src/AdapterInfo.php:22-25 | `  Key: value [rw]` yields the lower-cased key and `value` |
| `AdapterInfos.PropsKeys` | src/AdapterInfo.php:21-26 | the collected keys are unique and lower-case |
| `AdapterInfos.PropsLastLine` | src/AdapterInfo.php:21-26 | a later line with the same key overwrites, and other lines are skipped |
| `AdapterInfos.CollectProps` | src/AdapterInfo.php:21-26 | the first loop computes `PropsOf` |
| `AdapterInfos.PropsOf` | src/AdapterInfo.php:21-26 | definition of the property dictionary; stated by `AdapterInfos.PropsKeys` and `AdapterInfos.PropsLastLine`, computed by `AdapterInfos.CollectProps` |
| `AdapterInfos.Rejected` | src/AdapterInfo.php:14-30 | definition of the three null returns; `AdapterInfos.ParseBtAdapterInfo` returns null exactly when it holds |
| `AdapterInfos.Assigned` | src/AdapterInfo.php:39-64 | name and address stay, and an unknown key changes nothing |
| `AdapterInfos.AssignedFields` | src/AdapterInfo.php:39-64 | each known key sets its field; booleans are `(int)` ≠ 0 and timeouts `(int)` |
| `AdapterInfos.AssignedAll` | src/AdapterInfo.php:39-64 | the switch loop never changes name or address |
| `AdapterInfos.GetInit` | src/AdapterInfo.php:39 | a key read from all entries but the last, or from the last |
| `AdapterInfos.AssignedLast` | src/AdapterInfo.php:39-64 | the last entry decides the field it names |
| `AdapterInfos.FieldsFromProps` | src/AdapterInfo.php:39-64 | each field is set from its property, or keeps its earlier value when the property is absent |
| `AdapterInfos.Parsed` | src/AdapterInfo.php:32-66 | the result is named by the trimmed heading in lower case and carries the upper-cased address |
| `AdapterInfos.AdapterInfo.constructor` | src/AdapterInfo.php:69-71 | a new object holds the initial fields |
| `AdapterInfos.AdapterInfo.Assign` | src/AdapterInfo.php:40-63 | one pass of the `switch` changes the fields as `Assigned` says |
| `AdapterInfos.ParseBtAdapterInfo` | src/AdapterInfo.php:13-67 | null exactly when the heading is empty, no lines follow, or `address` is missing, falsy or another address (the adapter passed in is then untouched); otherwise that same adapter updated in place, or a new one, holding `Parsed` |

## Left out

- Process lifecycle: `start`, `stop`, `_onExit`, `autostart` and the start/stop calls in `onCommand`/`remove*Listener` drive an external process and an event loop.
- Exceptions thrown by listeners, and the `try`/`catch` around them: listeners are opaque tokens that cannot throw.
- Standard error, `Log::error` and `_emit`: logging and notification side channels. `cmdRet`'s log entry is kept only as "this result was logged", without the message text.
- Shell execution: `HCI::_exec`, `reset`, `btAdapter`, `btAdapterInfo`, `hciReset`, the `exec` calls in `cmd`/`setEventMask`, and `AdapterInfo::update`/`set*`. Only the parsing of their output is modelled, with the output lines as a parameter.
- `getAdapter`, `getError` (which is `new Error($code)`, i.e. `HciErrors.NewError`), the `__get` accessors, and `CommandResult`, which hold no logic of their own.
- Concrete payload parsers beyond `Unknown`, and non-identity `filter` wrappers: they are user-supplied and stay abstract functions.
- Re-entrancy: a listener calling back into `HCIDump` while a packet is being dispatched is not modelled.
- The `HCIDump` argument passed to `parse`/`_parse` is dropped: the modelled parsers do not use it.
- `Events.Code`, `Commands.Opcode`: the static per-class caches are modelled as a function of the class's defaults, not as mutable static state.
- `Hci.LookupAdapter`: the `instanceof Adapter` filter is not modelled (every element is an adapter), and `!=` is taken as string comparison; PHP 8's numeric-string comparison could differ only for numeric names and addresses.
- `AdapterInfos.ParseBtAdapterInfo`: the address check uses string `!=`; PHP would compare two numeric strings as numbers.
- `AdapterInfos.ToInt`: `(int)` is modelled as optional leading whitespace, an optional sign, then decimal digits; exponent forms such as `1e3` and saturation at 64 bits are not modelled.
- `Hci.AddressIn`, `AdapterInfos.PropLine`: the regular expressions are written out as functions for lines without a newline; PCRE's treatment of `$` before a final newline and locale-dependent `\s` are not modelled, and `\s` is the six ASCII whitespace characters.
- `Dicts.Put`: PHP turns integer-like string keys (`"12"`) into integer keys; keys stay strings here, which changes nothing observable in the models that use them.
- `Stream.CommandFramed`, `Stream.EventFramed`, `Chunking.CommandFramedInChunks`, `Chunking.EventFramedInChunks`: stated for a single packet with a non-empty payload that ends the input and follows junk without a marker; packets of zero length, several packets in a row and junk holding stray markers are covered only step by step, by the `Stream` lemmas on single invocations.
- `Hci.CmdStrLayout`: parameters are 64-bit integers, and negative ones print as their two's-complement hex, as `dechex` does.
