# DNS message codec of `final.py`, modelled in Dafny

`final.py` builds DNS query datagrams by hand and decodes the responses. This
project models that code. It covers:

- the record-type, operation-code and response-code tables;
- the header-flag decoder;
- `make_query`;
- the `DNS_Parser` class, which walks a response with a cursor and a per-message
  name cache.

The datagram layout is that of RFC 1035:
- section 4.1.1 for the header;
- section 4.1.2 for the question;
- section 4.1.3 for resource records;
- section 4.1.4 for compression pointers, here narrowed: the pointer mark is the
  byte 192 and the offset is the single next byte.

Modules, one per part of the program:

- `DnsBase` (base.dfy). Bytes as `seq<Byte>`, and Python's slicing,
  `int.from_bytes`, `to_bytes`, `bytes.hex`, `int(_, 16)`, `str.split` and
  `'.'.join`. The errors the code raises (`ValueError`, `KeyError`,
  `IndexError`, `RecursionError`) and the outcome of a method.
- `Registry` (registry.dfy). QTYPE in both directions, OPCODE, RCODE,
  `dns_opcode`, `dns_rcode`, `dns_cd` and `dns_qclass`.
- `Flags` (flags.dfy). `decode_flags`. The hex text becomes 16 binary digits,
  which are cut by FLAG_LENGTH. Each field goes through its DECODE_FLAG
  decoder, which is kept as a list of functions, as in the source.
- `Query` (query.dfy). `make_query`, with:
  - the random id as a parameter;
  - `validators`, `psl.get_sld` and `reverse_pointer` as oracle functions;
  - explicit UTF-8 encoding of the `chr(len(label)) + label` text.
- `Names` (names.dfy). `read_stream` as a function over the buffer and the
  parser's cursor and cache.
- `Records` (records.dfy). `decode_response`, the RDATA readers and
  `parse_dns_answer`.
- `Message` (message.dfy). `parse_dns_query` and `parse_dns_response` as
  functions from a parser state to an outcome and a new state. The answers a
  response yields are tied to the buffer by `Message.Walk`: starting at the
  question's cursor, reading one record with `Records.ParseAnswer` gives the
  next answer and the cursor for the one after it.
- `Parser` (parser.dfy). `class DnsParser` holds the fields of `DNS_Parser` and
  updates them in place. Each of its methods is proved to produce exactly the
  outcome and state that the matching function in `Names`, `Records` or
  `Message` prescribes. `read_stream`'s `while True` loop is a `while` loop
  whose invariant keeps the name still to be read equal to the one requested.
- `RoundTrip` (roundtrip.dfy). For names whose labels are 1 to 63 ASCII
  characters with no NUL, `parse_dns_query` reads back what `make_query` wrote.

A failing call of the source raises. In the model it returns `Err(e)` or
`Fail(e)`, together with the state the parser is left in.

## Model

| member | source | states |
|---|---|---|
| `Registry.Code` | final.py:16-22 | Every record type's code is one of 1, 2, 5, 12, 15, 16, 28 |
| `Registry.TypeOfCode` | final.py:8-15 | `QTYPE[n]` succeeds exactly for the seven codes and gives back the type with that code; anything else is the KeyError |
| `Registry.TypeOfMnemonic` | final.py:16-22 | `QTYPE.get(s)` finds a type exactly when `s` is its mnemonic, and none when no type has mnemonic `s` |
| `Registry.QtypeRoundTrip` | final.py:8-23 | Both halves of QTYPE agree: code and mnemonic of every type lead back to it |
| `Registry.DnsOpcode` | final.py:59-64 | Succeeds exactly on 0, 1, 2, 4, 5, 6 with the opcode of that value; ValueError otherwise |
| `Registry.DnsRcode` | final.py:66-71 | Succeeds exactly on 0..11 with the rcode of that value; ValueError otherwise |
| `Registry.DnsCd` | final.py:73-76 | Succeeds exactly on 0 and 1 (Unacceptable, Acceptable); ValueError otherwise |
| `Registry.DnsQclass` | final.py:78-82 | Class 1 is INTERNET; every other value is a ValueError |
| `DnsBase.BigEndian` | final.py:49-52 | `byte2int` of k bytes is below 256^k |
| `DnsBase.U16` | final.py:158 | `to_bytes(2, 'big')` gives two bytes that `byte2int` reads back as the number |
| `DnsBase.ToBigEndian` | final.py:125 | k big-endian bytes that read back as the number |
| `DnsBase.Hex` | final.py:54-57 | `byte2hex` gives two lower-case hex digits per byte |
| `DnsBase.HexValueOfHex` | final.py:216-220 | `int(byte2hex(b), 16)` is `byte2int(b)` |
| `DnsBase.HexValue` | final.py:110 | `int(h, 16)` of k hex digits is below 16^k |
| `DnsBase.Join` | final.py:211 | `'.'.join(chunks)`: empty for no chunks; otherwise the chunks' lengths plus one dot between each two, starting with the first chunk |
| `DnsBase.Split` | final.py:157 | `str.split('.')` yields at least one part and no part contains '.' |
| `DnsBase.JoinSplit` | final.py:157 | Joining the parts of a split with '.' gives the text back |
| `DnsBase.Slice` | final.py:207 | Python slicing: clipped at the end, empty when out of range, and element i is `s[a + i]` |
| `Flags.FieldValues` | final.py:111-115 | The loop of decode_flags reads one field per width |
| `Flags.Bits` | final.py:110 | `'{:016b}'`: exactly as many binary digits as asked for |
| `Flags.BitsValue` | final.py:114 | `int(_, 2)` of k binary digits is below 2^k |
| `Flags.FlagDecoder` | final.py:103 | For each DECODE_FLAG entry: only dns_opcode, dns_cd and dns_rcode can raise, always ValueError, exactly off their tables; the decoded value stands for the field's number |
| `Flags.DecodeFlags` | final.py:105-116 | A decoded flag string is four lower-case hex digits and yields the ten FLAGS entries |
| `Flags.DecodeWord` | final.py:110-116 | The binary form of a word decodes to ten values when it decodes |
| `Flags.DecodeFields` | final.py:111-116 | The loop over widths and decoders yields one value per pair |
| `Flags.DecodeFieldsOk` | final.py:111-116 | The loop succeeds iff every decoder accepts its field, and then each value is that decoder's result |
| `Flags.DecodeFieldsErr` | final.py:111-116 | A failing loop fails with the error of the first decoder that refuses its field |
| `Flags.DecodeFieldsTurn` | final.py:113-115 | One turn of the loop: head field decoded, rest read from `index + width` |
| `Flags.DecodeFlagsChecks` | final.py:105-116 | decode_flags succeeds iff the text is four lower-case hex digits, the opcode field is in OPCODE and the rcode field in RCODE; errors are ValueError; QR, opcode and rcode come from bits 15, 14-11 and 3-0 |
| `Flags.WordChecks` | final.py:110-116 | The same for the word, once written as 16 binary digits |
| `Flags.DecodedChecks` | final.py:103 | What the decoder list accepts and yields, from the field values (the CD field being one bit) |
| `Flags.DecodeFlagsPacks` | final.py:105-116 | A decoded breakdown packs back into the same 16-bit word and the same four hex digits |
| `Flags.WordPacks` | final.py:110-116 | The decoded values of a word, weighted by their place, give the word |
| `Flags.NumbersOfDecoded` | final.py:103 | Each decoded value stands for the field it was made from |
| `Flags.FieldsOfWord` | final.py:85 | The FLAG_LENGTH fields of a word are its bits 15, 14-11, 10, ..., 4 and 3-0, and they weigh back to the word |
| `Flags.FlagLengthSlices` | final.py:85 | The slices the loop takes are digits 0-1, 1-5, 5-6, ..., 12-16 |
| `Flags.FlagField` | final.py:113-115 | Field k is the slice after the first k widths |
| `Flags.FlagOffsets` | final.py:85 | Field k starts after the first k FLAG_LENGTH widths, and the ten widths add up to 16 |
| `Flags.FieldAt` | final.py:113-115 | The k-th field the loop reads starts after the first k widths |
| `Flags.TotalAppend` | final.py:115 | The running `index` adds each width |
| `Flags.Window` | final.py:110-114 | Digits a..b of `'{:016b}'` read as `v / 2^(16-b) mod 2^(b-a)` |
| `Flags.HexOfHexValue` | final.py:108-110 | Four lower-case hex digits survive `int(_, 16)` and a two-byte hex round trip |
| `Flags.HexValueOfFour` | final.py:110 | `int(h, 16)` of four digits, two by two |
| `Query.UpperChar` | final.py:140 | `str.upper()` on one character gives a capital A-Z exactly for A-Z, a-z, the long s U+017F and the dotless i U+0131; a-z move down by 32; every other character is kept (see Left out) |
| `Query.Upper` | final.py:140 | `qtype.upper()` has one character per character, each the `UpperChar` of it; the QTYPE lookup of the result is the one of Python's `upper()` (see Left out) |
| `Query.Utf8` | final.py:157 | UTF-8 of one code point: 1 to 4 bytes, ASCII alone below 0x80, continuation bytes 0x80-0xBF |
| `Query.Utf8String` | final.py:157 | `encode('utf8')` has at least one byte per character |
| `Query.AsciiBytes` | final.py:157 | The bytes of ASCII text are its code points |
| `Query.Utf8OfAscii` | final.py:157 | On ASCII text, UTF-8 is those bytes |
| `Query.EncodeLabels` | final.py:157 | Encoding succeeds iff every label's length is a code point `chr` accepts and UTF-8 can encode; failure is ValueError |
| `Query.EncodeAsciiLabels` | final.py:157 | For ASCII labels under 128 characters the encoding is each label's length byte followed by its bytes |
| `Query.NonAsciiLengthByte` | final.py:157 | The label "é" gets the length byte 1 and two bytes of UTF-8: the length byte counts characters, not bytes |
| `Query.Target` | final.py:143-154 | PTR needs an IPv4 or IPv6 address and uses its reverse pointer (IPv4 tried first); other types need a valid domain with a non-empty registrable part; NS, MX and TXT use that part and A, CNAME and AAAA the query itself; errors are ValueError |
| `Query.MakeQuery` | final.py:137-159 | Succeeds iff the upper-cased type is in QTYPE, the target is accepted and every label encodes; errors are ValueError; the datagram starts with the id and `01 00 00 01 00 00 00 00 00 00` and ends with 0, the type code and class 1 |
| `Query.QueryBytes` | final.py:155-159 | Where each part of the query datagram stands |
| `Query.MakeQueryWire` | final.py:155-159 | For ASCII labels the datagram is id, fixed header, label run, 0, type code, class 1 |
| `Names.ReadName` | final.py:180-211 | `read_stream` at an offset outside the response raises IndexError and leaves the state; any error it raises is IndexError or RecursionError |
| `Names.ReadLoop` | final.py:184-210 | The `while True` loop raises only IndexError or RecursionError |
| `Names.LoopTurn` | final.py:185-210 | One turn of the loop raises only IndexError or RecursionError |
| `Names.Follow` | final.py:193-197 | A cached offset gives the cached name and leaves the state; an uncached one with no nesting left is RecursionError; a name read at an uncached offset is cached there; errors are IndexError or RecursionError |
| `Names.LoopUnfold` | final.py:184-210 | An in-range position is one turn of the loop |
| `Names.LabelRun` | final.py:205-210 | The wire form of labels has one length byte per label plus the labels |
| `Names.LabelStep` | final.py:205-210 | A label length byte adds the label and moves past it |
| `Names.LabelSkip` | final.py:205-210 | Any other length byte moves past that many bytes, adding what of them the buffer holds |
| `Names.PointerFollowed` | final.py:190-204 | A followed pointer adds the target name, then ends the name (length 0, or count reached) or goes on two bytes later |
| `Names.NameEnds` | final.py:186-189 | A 0 byte ends the name; the cursor moves to it unless the call is recursive |
| `Names.ReadLabels` | final.py:184-211 | A run of labels ended by 0 reads as the labels joined with '.', cursor on the 0 unless recursive, cache unchanged |
| `Names.ReadFirstLabel` | final.py:205-210 | The same for a non-empty run |
| `Names.RunOfWire` | final.py:205-210 | The wire form `make_query` writes (final.py line 157) is such a run, wherever it stands |
| `Names.SliceParts` | final.py:207 | A window made of a byte, a label and more splits in three |
| `Names.CachedPointer` | final.py:193-194 | A pointer to a cached offset ends the name with the cached name and leaves the cursor on the offset byte |
| `Names.FollowedPointer` | final.py:195-197 | A pointer to an uncached offset reads it recursively, caches the result there and ends the name; the cursor is what the recursive call left |
| `Names.LabelRunsOff` | final.py:185-209 | A label that runs off the end raises IndexError at the next read, never a partial name |
| `Names.CacheGrows` | final.py:193-197 | The cache only grows |
| `Names.FollowGrows` | final.py:193-197 | Following a pointer only grows the cache |
| `Names.CursorParked` | final.py:186-197 | read_stream leaves the cursor where it was, on a terminator, or just after a pointer mark |
| `Names.FollowParked` | final.py:192-197 | Following a pointer keeps the cursor parked |
| `Records.DecodeResponse` | final.py:118-132 | Succeeds iff exactly ten bytes, a QTYPE code and class 1; else ValueError for a bad length, KeyError for an unknown type, ValueError for another class, in that order; TTL is 32-bit and RDLENGTH 16-bit big-endian |
| `Records.DecodeEncodedHeader` | final.py:118-132 | decode_response reads back every header the ten-byte layout can express |
| `Records.Decimal` | final.py:234 | `str(i)` is a non-empty string of digits |
| `Records.DecimalRoundTrip` | final.py:234 | `int(str(n)) == n` |
| `Records.RdataIpv4` | final.py:232-234 | IndexError iff the fourth address byte is outside the response; otherwise the four bytes in dotted decimal |
| `Records.DottedQuad` | final.py:234 | `'.'.join(str(i) for i in b)`: the four decimal numbers of the bytes with a dot between each two |
| `Records.DottedQuadDigits` | final.py:234 | Each of the four numbers of the dotted quad reads back as its byte |
| `Records.RdataIpv6` | final.py:236-238 | IndexError iff the sixteenth address byte is outside; otherwise those sixteen bytes |
| `Records.RdataTxt` | final.py:240-242 | IndexError iff the last RDATA byte is outside; otherwise the length byte and the bytes from `pos + 1` up to `pos + length + 1`, clipped |
| `Records.TxtReadsPastRdata` | final.py:241-242 | When the buffer goes on, the text holds `length` bytes and its last is the first byte after the RDATA |
| `Records.RdataMx` | final.py:244-245 | The 16-bit preference and the name read with `length - 2` as `recur`; errors and cursor are those of that read |
| `Records.OwnerRead` | final.py:259 | The owner name is read one past the cursor; IndexError with the state unchanged when that is outside the response; errors are IndexError or RecursionError |
| `Records.HeaderAt` | final.py:260-264 | decode_response of the ten bytes after the owner name; ValueError when fewer remain; errors are ValueError or KeyError |
| `Records.RecordRead` | final.py:265-301 | An accepted record keeps the owner name and header, has RDATA of its type that passes `valid_domain` where it is a name, and moves the cursor as the type prescribes; the per-type lemmas below give content, cursor and error of every case |
| `Records.RecordReadA` | final.py:267-271 | A: accepted iff RDLENGTH is 4 and the fourth byte is inside; then the dotted quad of the four RDATA bytes and the cursor 14 on; ValueError for another length, IndexError for a short buffer, cursor unchanged |
| `Records.RecordReadAaaa` | final.py:272-276 | AAAA: accepted iff RDLENGTH is 16 and the sixteenth byte is inside; then those sixteen bytes and the cursor 26 on; ValueError or IndexError otherwise |
| `Records.RecordReadTxt` | final.py:277-281 | TXT: accepted iff RDLENGTH is not 0, the last RDATA byte is inside and RDLENGTH is the text-length byte plus one; then that byte, the bytes after it and the cursor 10 + RDLENGTH on; IndexError for a short buffer, ValueError otherwise |
| `Records.RecordReadHost` | final.py:282-285 | CNAME, NS, PTR: accepted iff RDLENGTH is not 0, the name at the RDATA reads and passes `valid_domain`; the value is that name, the cursor is where the read left it; the read's error, or ValueError |
| `Records.RecordReadMx` | final.py:286-295 | MX: RDLENGTH 0 is ValueError; length 3 with the byte after the preference being 0 is the null MX with the cursor 13 on, IndexError if that byte is outside; otherwise preference and exchange from `rdata_mx`, accepted iff the exchange passes `valid_domain`, with that read's cursor and error, or ValueError |
| `Records.ParseAnswer` | final.py:258-302 | The owner name's error, then the header's error, each with the state the failing read left; otherwise exactly `RecordRead` of the owner name and header; an accepted record is consistent and its name RDATA valid |
| `Message.DecodeHeader` | final.py:214-222 | The header decodes iff its flags do; id and flags as hex, the four counts big-endian |
| `Message.HeaderFlags` | final.py:216-222 | A failing header raises ValueError; a decoded one's binary digits and breakdown both stand for the flags bytes |
| `Message.FlagsWord` | final.py:220 | `int(byte2hex(b), 16)` and `'{:016b}'` of it give `byte2int(b)` |
| `Message.FirstZero` | final.py:214 | `response[12:].index(0)`: the first 0 byte from 12 on, or the ValueError when there is none |
| `Message.ParseQuery` | final.py:213-230 | No 0 byte after 12 is a ValueError and a header whose flags do not decode is a ValueError, both with the state unchanged; otherwise the question read from offset 12; a decoded question's name is cached at 12, cursor on the last QCLASS byte, header from the first 12 bytes |
| `Message.QuestionRead` | final.py:223-230 | The name read's error with its state; otherwise the name is cached at 12, and the question is accepted iff the QTYPE code is known (KeyError) and the class is 1 (ValueError); an accepted one holds the name, the type whose code the two bytes after the 0 byte give, and class INTERNET |
| `Message.TypeField` | final.py:225 | QTYPE is the two bytes after the question's 0 byte, big-endian |
| `Message.ClassField` | final.py:229 | `query[-2:]` is the two bytes after QTYPE when the buffer holds them |
| `Message.QuestionFields` | final.py:225-230 | Accepted iff QTYPE is known and QCLASS is 1; an unknown QTYPE is KeyError with the cursor unchanged; a known one moves the cursor to `pos + 16`, also when the class then raises ValueError |
| `Message.QueryStep` | final.py:213-230 | parse_dns_query on a parser state: the question is set exactly when it decodes; answers and raw stay |
| `Message.AnswerStep` | final.py:258-302 | parse_dns_answer on a parser state: passes iff `ParseAnswer` accepts; then its answer is appended, otherwise the answers stay and the error is that of `ParseAnswer`; the cursor is the one `ParseAnswer` leaves; question and raw stay |
| `Message.ConsistentCons` | final.py:301-302 | A consistent answer in front of consistent answers |
| `Message.WalkConsistent` | final.py:301-302 | Answers that a walk of accepting reads produced are all consistent |
| `Message.RepeatKeeps` | final.py:311-314 | Repeating a step that appends what a read yields keeps question, raw and earlier answers, and adds exactly one answer per turn when every turn passes, fewer when one fails |
| `Message.RepeatWalk` | final.py:311-314 | The answers the repetition added are a walk of the read from the starting cursor, ending at the final cursor; on failure the walk ends where the failing read starts |
| `Message.ParseAnswersWalk` | final.py:311-314 | The answer loop adds `total` answers read back to back from the cursor when it passes; when it raises it adds fewer, and the record after them fails with the loop's error and state |
| `Message.AnswersAfterStep` | final.py:312-314 | One turn of the loop: over when it raised, `k - 1` turns left otherwise |
| `Message.ParseResponse` | final.py:304-316 | A failing question is its error with its state; on success the question is the decoded one and ANCOUNT + NSCOUNT + ARCOUNT answers were added, read back to back from the question's cursor, all consistent, and raw holds the question and all answers; on failure after the question, fewer were added, the next record fails with the error, and raw is unchanged |
| `Parser.DnsParser.constructor` | final.py:162-172 | A fresh parser: empty cache, no question or answers, empty raw, cursor 0 |
| `Parser.DnsParser.CheckBounds` | final.py:174-178 | IndexError exactly when the position is not inside the response |
| `Parser.DnsParser.ReadStream` | final.py:180-211 | The loop returns the name and leaves the cache and cursor that `Names.ReadName` prescribes |
| `Parser.DnsParser.FollowPointer` | final.py:190-197 | The pointer branch: cached name, or a nested read whose result is cached |
| `Parser.DnsParser.RdataMx` | final.py:244-245 | As `Records.RdataMx` |
| `Parser.DnsParser.ParseDnsQuery` | final.py:213-230 | As `Message.QueryStep`, on the object's fields |
| `Parser.DnsParser.ReadQuestion` | final.py:223-230 | As `Message.QuestionRead` |
| `Parser.DnsParser.ReadRecord` | final.py:265-301 | As `Records.RecordRead` |
| `Parser.DnsParser.ParseDnsAnswer` | final.py:258-302 | As `Message.AnswerStep` |
| `Parser.DnsParser.AnswerTurn` | final.py:312-314 | One turn of the answer loop ends it or leaves `k - 1` turns |
| `Parser.DnsParser.ParseDnsAnswers` | final.py:311-314 | The answer loop, as `Message.ParseAnswers` |
| `Parser.DnsParser.ParseDnsResponse` | final.py:304-316 | As `Message.ParseResponse`, on the object's fields |
| `RoundTrip.AsciiLabels` | final.py:157 | The labels as bytes, one per label |
| `RoundTrip.WireOfLabels` | final.py:205-210 | The wire form `make_query` writes is the label run `read_stream` reads |
| `RoundTrip.WireNonZero` | final.py:157 | Labels of 1 to 63 characters with no NUL put no 0 byte into the name |
| `RoundTrip.NonZeroAppend` | final.py:157 | Joining bytes with no 0 gives bytes with no 0 |
| `RoundTrip.AsciiAppend` | final.py:157 | The bytes of joined ASCII text are the joined bytes |
| `RoundTrip.JoinOfAscii` | final.py:157 | Joining ASCII labels with '.' and taking the bytes is joining their bytes with the dot byte |
| `RoundTrip.FirstZeroAt` | final.py:214 | The 0 byte that every earlier byte precedes is the one `index(0)` finds |
| `RoundTrip.QueryFlagsDecode` | final.py:156 | The flags make_query writes (0x0100) decode as the header flags do (final.py line 221) |
| `RoundTrip.QueryHeaderDecodes` | final.py:214-222 | The header make_query writes (final.py line 156) decodes: id as hex, one question, no records, flags 0x0100 |
| `RoundTrip.FixedFields` | final.py:156 | The counts in the fixed header bytes are 1, 0, 0, 0 |
| `RoundTrip.ParseQueryOf` | final.py:213-230 | parse_dns_query over a buffer whose parts decode gives that question and cursor |
| `RoundTrip.FieldsOf` | final.py:225-230 | The type and class of a question that ends the buffer |
| `RoundTrip.QueryLayout` | final.py:155-159 | Where the parts of a query datagram stand |
| `RoundTrip.Parts` | final.py:155-159 | Windows of a concatenation |
| `RoundTrip.ZeroAfter` | final.py:214 | The first 0 byte after the name is the root label |
| `RoundTrip.NameAfter` | final.py:180-211 | The name make_query wrote reads back as its labels joined with '.', cursor on the root label |
| `RoundTrip.QueryBytesRead` | final.py:213-225 | The datagram as the parser sees it: question ends at the root label, the name reads back, the type code is known, class is 1 |
| `RoundTrip.QueryRoundTrip` | final.py:213-230 | For labels of 1 to 63 ASCII characters with no NUL, parse_dns_query over the datagram make_query (final.py lines 137-159) builds gives back the target name (the query for A/CNAME/AAAA, its registrable part for NS/MX/TXT), the type, class INTERNET, counts 1/0/0/0 and flags 0x0100, caching the name at 12 with the cursor on the last byte |

## How the code behaves at the edges

Facts about the code that a reader of RFC 1035 might not expect. The model
follows the code in each:

- Pointers are not checked. `read_stream` follows any pointer offset,
  forward or backward (final.py:190-197), and raises no error of its own for
  either. A chain of pointers that loops ends in Python's RecursionError. The
  model has a depth bound of 1000 nested calls (`Names.RecursionLimit`) and
  yields `RecursionError` when it is exhausted (`Names.Follow`).
- The answer cursor is not moved past name RDATA. For CNAME, NS, PTR and a
  non-null MX, `parse_dns_answer` moves the cursor only as far as the name
  read inside the RDATA leaves it (final.py:282-295). Nothing checks that
  exactly RDLENGTH bytes were used (`Records.RecordReadHost`,
  `Records.RecordReadMx`).
- The TXT reader takes one byte past the RDATA: the text is read from
  `pos + 1` up to `pos + length + 1` (final.py:242,
  `Records.TxtReadsPastRdata`).
- A truncated label is not an error by itself. A label whose length byte
  runs past the end of the response is sliced as far as the buffer goes
  (final.py:207); the IndexError only comes at the next read
  (`Names.LabelRunsOff`).
- The 63-byte label limit is not checked. `make_query` encodes labels of any
  length up to what `chr` and UTF-8 accept (final.py:157).
- The length byte counts characters. `make_query` writes `chr(len(label))`
  before each label and encodes the whole text as UTF-8 afterwards
  (final.py:157). A label with non-ASCII characters therefore gets a length
  byte smaller than the number of bytes it occupies, and a label of 128 or
  more characters gets a length of two or more bytes (`Query.EncodeLabels`,
  `Query.NonAsciiLengthByte`).

## Left out

- Type checks that raise `TypeError` (`isinstance` guards) are left out. Dafny's types make them unreachable.
- Sockets, `input`, `print` and `dns_query` (final.py:321-354) are left out: they are I/O.
- `random.randbytes(2)` is not modelled; the two id bytes are a parameter of `Query.MakeQuery`.
- `validators.domain`, `validators.ipv4`, `validators.ipv6`, `psl.get_sld`, `reverse_pointer` and `valid_domain` (final.py:134-135) are library calls. They are oracle functions passed as parameters.
- `Names.ReadName` keeps names, labels and TXT text as bytes. `.decode('utf8')` is not modelled, so invalid UTF-8, which raises `UnicodeDecodeError` in the source, is accepted.
- `Records.RdataIpv6` keeps the sixteen address bytes. The text `ipaddress.IPv6Address` produces is not modelled.
- `Query.Upper` maps a character only when its upper case is a single capital A-Z: a-z, the long s U+017F and the dotless i U+0131. A character whose upper case has several characters is kept: ß (to SS), the ligatures U+FB00-U+FB06 (to FF, FI, FL, FFI, FFL, ST, ST) and the rest of Unicode's special cases, whose expansions all contain a non-ASCII character. So is every character whose upper case is a single non-ASCII one. The QTYPE lookup is the same as after Python's `upper()`: no mnemonic (A, NS, CNAME, PTR, MX, TXT, AAAA) contains SS, ST, FF, FI or FL, and no mnemonic contains a non-ASCII character, so a text holding such a character is no mnemonic either way.
- `Message.QueryStep` sets the question only when it decodes completely. The partly filled `self.question` dictionary that the source leaves behind after an exception is not modelled.
- `Parser.DnsParser.ParseDnsResponse` stores the answers in `raw` as a value. The sharing of one list object between `self.raw['Answers']` and `self.answers` is not modelled.
- `self.simple` and the commented-out SOA handling are left out, because they are unused.
- `Flags.DecodeFlags` gives the breakdown as a sequence in FLAGS order rather than a dictionary keyed by the FLAGS names.
- `Message.DecodeHeader` decodes the first twelve bytes of the response. The source decodes them from `response[:pos+17]`. Since the first 0 byte lies at offset 12 or later, that slice is at least thirteen bytes long and the twelve bytes are the same.
- `Names.ReadLoop` stops pointer following after 1000 nested calls. The interpreter's actual stack depth is not modelled.
