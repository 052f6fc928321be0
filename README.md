# onkyo-eiscp protocol core in Dafny

A model of the protocol logic in `eiscp/core.py` of the Onkyo eISCP control
library, with proofs of what that logic guarantees. The model covers the parts
of the library that do not touch the network:

- **ISCP messages** (`iscp.dfy`, module `Iscp`). A command goes out as `"!1"`,
  the body and a CR. A reply comes back as `"!1"`, the body, the EOF character
  0x1A and up to two CR/LF characters. `ISCPMessage.parse` is modelled with
  every assertion it makes.
- **eISCP packets** (`packet.dfy`, module `Packet`).
  - The 16-byte header in `struct` format `'! 4s I I b 3s'` is written out as
    big-endian fields, with the 32-bit limit on the data size.
  - `eISCPPacket` construction, `parse_header`, `parse`, `__str__` and
    `command_to_packet` are modelled, together with their round trips.
- **The receive buffer** (`buffer.dfy`, module `Buffer`).
  - `MessageBuffer` is a class with a byte-sequence field. `recv`, `reset`,
    `available` and `get_message` act on it in place.
  - `get_message` is proved against the function `NextMessage`.
  - Lemmas show that messages come out in arrival order, with the same
    leftovers and the same error, however the TCP stream is cut into `recv`
    chunks.
- **Command translation** (`commands.dfy`, module `Commands`).
  - Covers `normalize_command`, the pretty-command parser in `command_to_iscp`,
    zone and command lookup, alias lookup, the range scan with its number
    encoding, and `iscp_to_command`.
  - The command catalogue (`ZONE_MAPPINGS`, `COMMANDS`, `COMMAND_MAPPINGS`,
    `VALUE_MAPPINGS`) is a parameter. Its zone order and value-table order are
    kept, because both decide results.
  - A `ValueRange` is an inclusive interval.
- **Reply correlation** (`correlation.dfy`, module `Correlation`).
  `filter_for_message` is a method with a loop over a finite trace of polls.
  Each poll records what the getter returned and the seconds elapsed at the
  deadline check. The method is proved equal to a recursive specification.
  Lemmas state the first-match, MGS/MDI, CTV and timeout rules.
- **Discovery replies** (`discovery.dfy`, module `Discovery`).
  - `parse_info` matches its regular expression field by field. Lemmas prove
    that the matcher and the record formatter are inverse to each other.
  - The dictionary fold of `discover` is a method over the received
    (host, datagram) pairs. It is proved to list one receiver per identifier,
    in first-sighting order, with the last sighting winning.
- `wrappers.dfy` holds `Option`, `Result` and the Python exceptions the code
  can raise. Every error path is a value.
- `text.dfy` holds the parts of Python's `str` and `bytes` that the code
  relies on: ASCII encode and decode, `strip`, `lower`/`upper`, `re.split`
  over a character class, `hex` and `zfill`.

Where the code and its description differ, the model follows the code. The
clearest case is `ISCPMessage.__str__` (`eiscp/core.py:42`). It is sometimes
described as writing the EOF character before the CR, but it does not.
`Iscp.ParseRejectsSent` shows the consequence: a message as sent is not
accepted by `ISCPMessage.parse` when its body holds no EOF, so
parse-after-format holds only for reply framing (`Iscp.ParseFramed`).

Behaviours of the code that the model keeps and proves:

- **The zone check uses the zone as given.** It looks up the unmapped zone
  (`eiscp/core.py:201`). So with `zone=None` and explicit arguments the call
  fails unless `None` is itself a catalogue zone (`Commands.OmittedZoneIsChecked`).
- **Invalid arguments stop at the first table entry.** The `else` at line 242
  belongs to the `if` at line 225. A non-numeric argument that is not an alias
  therefore raises `ValueError` on the first table entry.
- **Unmatched numbers leave `value` unbound.** A numeric argument that no range
  contains leaves `value` unbound at line 246. That path is an
  `UnboundLocalError` (`Commands.ScanValues`).
- **Negative numbers outside SWL/CTL encode with a leading `X`.** For other
  prefixes a negative number encodes as `X` followed by hex digits, which
  `iscp_to_command` does not read back as a number
  (`Commands.EncodeNumberReadsBack`).
- **Short identifiers absorb the EOF character.** The reply pattern ends in
  `.{0,12}`, which is not anchored. A receiver whose identifier is shorter
  than twelve characters is reported with the EOF character appended to it
  (`Discovery.ShortIdentifierTakesEof`). A twelve-character identifier
  decodes exactly (`Discovery.ParseInfoOfReply`).
- **The example in the `parse_info` comment does not match.** The example
  reply at line 302 has no identifier segment, so the pattern does not match
  it (`Discovery.CommentExampleDoesNotMatch`).

## Model

| member | source | states |
|---|---|---|
| Iscp.IscpMessage.ToString | eiscp/core.py:38-42 | the sent text is "!1", the body and a final CR, three characters longer than the body, and holds EOF only if the body does |
| Iscp.Parse | eiscp/core.py:44-56 | a missing "!1" prefix, or no EOF before at most two CR/LF characters, is an AssertionError; a success returns exactly the text between "!1" and that EOF, and what follows the EOF is a CR/LF trailer of length at most two |
| Iscp.ParseFramed | eiscp/core.py:44-56 | every body framed as a reply, with EOF and any trailer of up to two CR/LF characters, parses back to that body; with Parse's contract, parse accepts exactly such framings |
| Iscp.ParseRejectsSent | eiscp/core.py:38-56 | formatting a message and parsing it again fails whenever the body holds no EOF, because the formatter writes no EOF |
| Packet.ToBigEndian | eiscp/core.py:71-78 | an unsigned field of the header is written in exactly its byte width |
| Packet.FromToBigEndian | eiscp/core.py:71-111 | reading back a big-endian field that was written gives the original number whenever it fits the width |
| Packet.ToFromBigEndian | eiscp/core.py:110-111 | writing back a field that was read gives the original bytes |
| Packet.FromBigEndianBound | eiscp/core.py:110-111 | a field read from w bytes is below 256^w, so a 4-byte data size is below 2^32 |
| Packet.SignedByte | eiscp/core.py:110-111 | the version byte of format `b` reads as a signed value in -128..127 that equals the byte when non-negative |
| Packet.HeaderBytes | eiscp/core.py:71-78 | the packed header is always 16 bytes |
| Packet.HeaderBytesAscii | eiscp/core.py:71-84 | for a data size below 128 every header byte is ASCII |
| Packet.Pack | eiscp/core.py:67-80 | packing succeeds exactly when the text length fits an unsigned 32-bit field (else struct.error); the packet is header plus the text's bytes, 16 bytes longer than the text |
| Packet.ParseHeader | eiscp/core.py:98-121 | a header is accepted exactly when it has 16 bytes, magic "ISCP", header size 16 and ASCII reserved bytes; the result carries the big-endian data size (below 2^32) and the signed version |
| Packet.ParseHeaderOfPack | eiscp/core.py:67-121 | the header of a packed text parses to magic "ISCP", header size 16, the text length, version 1 and three zero reserved bytes |
| Packet.Parse | eiscp/core.py:89-96 | a header error is passed on unchanged; after a valid header, parsing succeeds exactly when the data-size bytes after the header are all present and ASCII, and then returns exactly those bytes as text |
| Packet.ParseOfPack | eiscp/core.py:67-96 | parse inverts packing: every packable ASCII text comes back unchanged |
| Packet.ParseNeedsWholePacket | eiscp/core.py:89-96 | a packet cut short, before its header or before the announced data size, is rejected |
| Packet.PacketText | eiscp/core.py:83-84 | the packet decoded as text is 16 header characters followed by the text itself, and decoding cannot fail for texts shorter than 128 characters |
| Packet.CommandToPacket | eiscp/core.py:124-128 | a command packs exactly when "!1", the command and CR fit the 32-bit size field (else struct.error); the packet is the header for that length followed by the bytes of "!1", the command and CR |
| Packet.CommandPacketLayout | eiscp/core.py:124-128 | a command packet is 19 bytes longer than the command and parses back to "!1", the command and CR |
| Buffer.NextMessage | eiscp/core.py:334-343 | with no message ready, or on a header, decoding or ISCP error, the buffer is left unchanged; a message always shortens the buffer |
| Buffer.TakePacket | eiscp/core.py:338-342 | a complete packet yields a message only when its payload is the bytes of "!1", that message, EOF and a CR/LF trailer of at most two characters, and then drops exactly its own bytes from the front; a failure is a decoding or ISCP error and drops nothing |
| Buffer.PayloadMessage | eiscp/core.py:340 | a non-ASCII payload is a UnicodeDecodeError and any other failure an AssertionError; a success returns a body whose reply framing ("!1", body, EOF, trailer of at most two CR/LF) is exactly the payload |
| Buffer.PayloadOfReply | eiscp/core.py:340 | conversely, the bytes of any reply framing of an ASCII body give that body back |
| Buffer.FramedAscii | eiscp/core.py:44-56 | the reply framing of an ASCII body with a CR/LF trailer is ASCII |
| Buffer.MessageBuffer.constructor | eiscp/core.py:317-319 | a new buffer has the given capacity and holds nothing |
| Buffer.MessageBuffer.Reset | eiscp/core.py:321-323 | after a reset the buffer is empty and the whole capacity is available |
| Buffer.MessageBuffer.Available | eiscp/core.py:325-328 | the room left is the capacity minus the bytes held, never more than the capacity |
| Buffer.MessageBuffer.Recv | eiscp/core.py:330-332 | received bytes are appended after what was held, the room left shrinks by their number, and a caller that reads at most the room left never exceeds the capacity |
| Buffer.MessageBuffer.GetMessage | eiscp/core.py:334-343 | the method returns what NextMessage specifies and leaves the buffer NextMessage specifies, which never grows |
| Buffer.NextMessageExtend | eiscp/core.py:334-343 | bytes arriving after a complete or failing front packet do not change what get_message does with it |
| Buffer.CompleteTakes | eiscp/core.py:336-342 | once a valid header and its whole packet are present, get_message takes exactly that packet |
| Buffer.TakePacketExtend | eiscp/core.py:338-342 | taking a complete front packet is unaffected by bytes after it, which stay behind it |
| Buffer.DrainAppend | eiscp/core.py:330-343 | draining after more bytes arrive yields the earlier drain's messages followed by those of the remaining bytes; an error stays at the front |
| Buffer.DrainStopsQuiet | eiscp/core.py:334-343 | after a drain that raised nothing, the next get_message yields no message |
| Buffer.FeedIsDrain | eiscp/core.py:330-343 | receiving chunks one by one and draining after each equals draining their concatenation |
| Buffer.ChunkingInvariant | eiscp/core.py:330-343 | however the stream is cut into recv chunks, the same messages come out in the same order, with the same leftover bytes and the same error |
| Buffer.ReplyIscpText | eiscp/core.py:44-56 | a reply's text ("!1", body, EOF, trailer) is ASCII and fits a packet |
| Buffer.NextMessageOfFrame | eiscp/core.py:334-343 | a reply packet at the front yields its body and leaves exactly the bytes after it |
| Buffer.DrainStream | eiscp/core.py:334-343 | back-to-back reply packets drain to their bodies in order, leaving nothing |
| Buffer.ChunkedReplies | eiscp/core.py:330-343 | reply packets cut into arbitrary chunks come out as the replies' bodies in arrival order, with nothing left and no error |
| Commands.NormalizeCommand | eiscp/core.py:131-136 | the result has the same length, holds no '_', '-' or capital letter, and maps each character: '_' and '-' to a space, others lowered |
| Commands.NormalizeIdempotent | eiscp/core.py:131-136 | normalising twice is the same as normalising once |
| Commands.NormIsNormal | eiscp/core.py:171 | stripping then lowering leaves no edge space and no capital letter |
| Commands.NormArguments | eiscp/core.py:185-195 | every argument token becomes a normalised string argument, one per token, in order |
| Commands.ParseCommand | eiscp/core.py:173-197 | a failure is always the "need at least command and argument" ValueError; a success always has a zone and at least one argument |
| Commands.ParseCommandFails | eiscp/core.py:176-197 | parsing fails exactly when the text has no ':' or '=' and no '.' or space |
| Commands.ParseCommandNormal | eiscp/core.py:171-197 | every parsed zone, command and argument is stripped and lower-case |
| Commands.ParseTwoWords | eiscp/core.py:159-195 | "power on" (any two plain words, space or dot) is the main zone, that command and that one argument |
| Commands.ParseThreeWords | eiscp/core.py:160-191 | "zone2 volume 66" (any three plain words) is that zone, command and argument |
| Commands.ParseAssignment | eiscp/core.py:166-185 | "power=on" is the main zone, that command and that argument |
| Commands.ParseAssignmentWithZone | eiscp/core.py:167-185 | "zone2.volume=66" is that zone, command and argument |
| Commands.ParseOfTwoWords | eiscp/core.py:186-195 | any text without ':' or '=' that splits into two tokens is the main zone, the first token through norm as command and the second through norm as its one argument |
| Commands.ParseOfThreeWords | eiscp/core.py:186-191 | any text without ':' or '=' that splits into three tokens is zone, command and argument, each through norm |
| Commands.ParseOfAssignment | eiscp/core.py:176-185 | an assignment whose base has one part gets the main zone |
| Commands.ParseOfZonedAssignment | eiscp/core.py:176-185 | an assignment whose base has two parts takes the first as zone |
| Commands.ParseWordsArguments | eiscp/core.py:186-191 | "zone command w1 w2 …" without ':' or '=' is that zone and command, with every later word, split at spaces and dots, as an argument in order |
| Commands.ParseOfWords | eiscp/core.py:186-191 | any text without ':' or '=' that splits into zone, command and one or more further tokens is that zone and command through norm, with the further tokens through norm as the arguments in order |
| Commands.ParseAssignmentForm | eiscp/core.py:176-185 | "base=arguments" or "base:arguments" cuts at the first ':' or '='; a two-part base gives zone and command, any other base zone "main" and its first part as command; the arguments are the text after the cut split at spaces and commas |
| Commands.ParseOfAssignmentForm | eiscp/core.py:176-185 | the same for any text already cut once at ':' or '=' into base and arguments |
| Commands.SplitOnceAssignment | eiscp/core.py:177 | a base without ':' or '=' followed by either separator is cut exactly there |
| Commands.ParseTwoArguments | eiscp/core.py:186-191 | "zone2 volume 66 70" (any four plain words) is that zone and command, with both later words passed on as arguments, in order |
| Commands.ParseArgumentList | eiscp/core.py:176-185 | "main.volume=1,2" (any plain words) is that zone and command with the two arguments split at the comma |
| Commands.ParseLongBase | eiscp/core.py:176-185 | "a.b.c=x": a base of three parts is zone "main" with the first part as command, and the other two parts are dropped |
| Commands.ZoneIndex | eiscp/core.py:201 | finds the first catalogue zone with the given name, or reports that none has it |
| Commands.FirstArgument | eiscp/core.py:214-217 | only the first element of an argument list is used, and an empty list is an IndexError |
| Commands.AliasIndex | eiscp/core.py:220-221 | finds the first value-table entry whose key is the given alias, or reports that none has it |
| Commands.LookupAlias | eiscp/core.py:220-221 | an alias is found exactly when the argument is a string that is a literal key of the value table, and the code returned is one stored under it |
| Commands.IntOf | eiscp/core.py:225-227 | int() of a numeric argument fails exactly for strings with two or more leading dashes |
| Commands.EncodeNumber | eiscp/core.py:229-238 | the code has at least two characters; outside SWL/CTL it is all hex digits exactly for n >= 0 and starts with 'X' exactly for n < 0; for SWL/CTL it has at least three characters and starts with '0', '+' or '-' exactly when n is zero, positive or negative |
| Commands.RawCodeOfNonNegative | eiscp/core.py:229 | for n >= 0, hex(n) without "0x", padded to two and uppercased, is the upper-case hex code of n |
| Commands.RawCodeOfNegative | eiscp/core.py:229 | for n < 0 the same expression gives "X" followed by the upper-case hex digits of -n |
| Commands.HexCodeShape | eiscp/core.py:229-238 | the code is "00" exactly for zero, never starts with 'X', and is a single hex digit padded with '0' or the full hex digits |
| Commands.EncodeUnsignedForms | eiscp/core.py:229 | outside SWL/CTL a non-negative number encodes as its hex code and a negative one as "X" and hex digits |
| Commands.EncodeSignedForms | eiscp/core.py:230-238 | for SWL/CTL zero encodes as "000", a positive number as '+' and its hex code, a negative one as '-' and the two-digit padded hex code of its magnitude |
| Commands.HexCodeValue | eiscp/core.py:229 | the hex code has at least two hex digits, holds no 'X' and reads back as the number |
| Commands.ScanValues | eiscp/core.py:222-246 | an empty table leaves value unbound; a non-numeric argument raises ValueError at the first entry; a number inside some range encodes, one outside all ranges leaves value unbound; a bad numeric literal raises ValueError if a range is tried |
| Commands.ResolveValue | eiscp/core.py:219-244 | when the argument is a string that is a literal key, the result is the code of the first entry with that key; otherwise it is the range scan's result; any success is such an alias code or the encoding of a numeric argument held by some range; any failure is an invalid argument, an invalid literal or value unbound |
| Commands.Resolve | eiscp/core.py:199-246 | a zone missing from the catalogue is a ValueError; a prefix missing from the group's commands is a ValueError; a success is the mapped prefix followed by the resolved value of the first argument |
| Commands.CommandToIscp | eiscp/core.py:139-246 | with arguments and zone omitted, a text without any separator is the "need at least command and argument" ValueError and any other text is resolved as parsed; with either given, the parts are resolved as they are, and a zone missing from the catalogue is a ValueError |
| Commands.OneArgumentEitherWay | eiscp/core.py:214-217 | one argument passed alone or as a one-element list resolves the same |
| Commands.ThreeWordsAsCall | eiscp/core.py:149-191 | `command('zone2 volume 66')` gives the same result as `command('volume', '66', zone='zone2')`, for any plain words and either separator |
| Commands.TwoWordsAsCall | eiscp/core.py:149-202 | `command('power on')` gives the same result as the explicit call with zone "main", while the explicit call with no zone is an invalid-zone ValueError unless None is a catalogue zone |
| Commands.AssignmentAsCall | eiscp/core.py:149-185 | `command('power=on')` gives the same result as the explicit call with zone "main" |
| Commands.ZonedAssignmentAsCall | eiscp/core.py:149-185 | `command('zone2.volume=66')` gives the same result as `command('volume', '66', zone='zone2')` |
| Commands.OmittedZoneIsChecked | eiscp/core.py:199-202 | with explicit arguments and no zone, the call fails unless None itself is a catalogue zone |
| Commands.AliasIsSent | eiscp/core.py:204-246 | for a valid zone and command, an alias argument sends the prefix followed by the alias code |
| Commands.NumberIsSent | eiscp/core.py:204-246 | for a valid zone and command, an integer argument sends the prefix and its encoding if some range holds it, and otherwise fails with value unbound |
| Commands.FindZone | eiscp/core.py:251-255 | finds the first zone in catalogue order whose command table holds the prefix, or reports that none does |
| Commands.BeforeFinalNewline | eiscp/core.py:260 | `$` also matches before one final newline: the text is either unchanged or loses exactly that newline |
| Commands.DecodeValue | eiscp/core.py:256-264 | a known value key gives its name; any other code that command_to_iscp's number encoding produced reads back as that number, except a negative number outside SWL/CTL, which stays raw text |
| Commands.IscpToCommand | eiscp/core.py:249-269 | fails with ValueError exactly when no zone knows the three-character prefix; otherwise decodes in the first zone that does, with or without the zone name |
| Commands.PlainCodeReadsBack | eiscp/core.py:229-262 | an unsigned hex code reads back as its number |
| Commands.SignedCodeReadsBack | eiscp/core.py:230-262 | a '+' or '-' followed by a hex code reads back as the signed number |
| Commands.ZeroCodeReadsBack | eiscp/core.py:231-262 | "000" reads back as zero |
| Commands.XCodeIsNotHex | eiscp/core.py:229-260 | the "X..." form of a negative number is not a hex literal |
| Commands.EncodeNumberReadsBack | eiscp/core.py:229-262 | every encoded number reads back as itself, except negative numbers outside SWL/CTL, which do not read as numbers at all |
| Commands.NumberRoundTrip | eiscp/core.py:229-269 | a message made of a command prefix and an encoded number (not an alias code) is read back as that command's name and that number |
| Correlation.Verdict | eiscp/core.py:280-296 | a deciding poll returns the matching candidate, else the sent CTV message, else a timeout ValueError past 5 seconds |
| Correlation.Filter | eiscp/core.py:277-296 | the wait is unfinished exactly when no poll of the trace decides; a finished wait returns a polled candidate or the sent message, or fails with the timeout ValueError |
| Correlation.FilterForMessage | eiscp/core.py:271-296 | the polling loop returns exactly the recursive specification Filter, and is still waiting exactly when no poll of the trace decides |
| Correlation.FilterFirstDecisive | eiscp/core.py:277-296 | the wait ends at the first deciding poll with that poll's verdict |
| Correlation.FilterDoneHasDecisive | eiscp/core.py:277-296 | conversely, every finished wait ended at a first deciding poll |
| Correlation.CtvAfterOnePoll | eiscp/core.py:280-288 | a CTV message returns after one poll, with the candidate if it matches and the message itself otherwise, whatever the clock |
| Correlation.ReplyBeforeDeadline | eiscp/core.py:280-295 | a matching reply after non-matching polls within the deadline is returned |
| Correlation.TimeoutWithoutReply | eiscp/core.py:295-296 | without a match, a non-CTV wait fails at the first check past 5 seconds |
| Correlation.PowerQueryExample | eiscp/core.py:272-275 | sending PVR00 and seeing PVR01 returns PVR01 |
| Discovery.RunLength | eiscp/core.py:310 | `.{0,n}` takes at most n non-newline characters and stops only at n, the end or a newline |
| Discovery.MatchIdentifier | eiscp/core.py:310 | the identifier group is a valid identifier, ends where the greedy repetition stops, and the rest of the text follows it |
| Discovery.MatchArea | eiscp/core.py:309-310 | a match is two word characters, "/", and the identifier, and rebuilds the text |
| Discovery.MatchPort | eiscp/core.py:308-310 | a match is five digits, "/", area and identifier, and rebuilds the text |
| Discovery.MatchModel | eiscp/core.py:307-310 | a match is a model without "/", then "/", port, area and identifier, and rebuilds the text |
| Discovery.MatchInfo | eiscp/core.py:303-311 | a match is a valid record whose text is a prefix of the input, with the identifier ending where the pattern stops |
| Discovery.MatchFormatted | eiscp/core.py:303-311 | conversely, the text of any valid record followed by anything that ends the identifier matches as exactly that record |
| Discovery.CommentExampleDoesNotMatch | eiscp/core.py:301-311 | the example reply in the comment has no identifier segment and does not match |
| Discovery.ParseInfo | eiscp/core.py:299-312 | a decoded record is valid; a failure is either a packet error or the AttributeError of groupdict on no match |
| Discovery.ParseReply | eiscp/core.py:299-312 | a packed reply ("record", EOF, CR, LF) is matched on the record followed by EOF |
| Discovery.ParseInfoOfReply | eiscp/core.py:299-312 | a reply whose identifier has twelve characters decodes to exactly its record |
| Discovery.ShortIdentifierTakesEof | eiscp/core.py:299-312 | a reply whose identifier is shorter decodes with the EOF character appended to the identifier |
| Discovery.ReceiverOf | eiscp/core.py:401-402 | the receiver has the sender's host, the record attached, and a port below 100000 read from the five digits |
| Discovery.Sightings | eiscp/core.py:395-397 | each datagram is paired with its sender and with what parse_info makes of it, in order |
| Discovery.ParseAll | eiscp/core.py:391-403 | a finished receive loop yields one receiver per reply, and a failed one carries the error of some reply that failed to decode |
| Discovery.ParseAllOk | eiscp/core.py:391-403 | the receive loop finishes exactly when every reply decodes, and then each receiver comes from its own reply |
| Discovery.ParseAllSticky | eiscp/core.py:391-403 | once a reply fails to decode, discovery ends with that error |
| Discovery.ParseAllFirstError | eiscp/core.py:391-403 | the error of discovery is that of the first reply that fails to decode |
| Discovery.StoreReceiver | eiscp/core.py:371-403 | storing a receiver keeps the dictionary equal to the receivers seen: keys in first-insertion order, each mapping to its last receiver |
| Discovery.StoreOrder | eiscp/core.py:403 | a new key goes to the end of the key order and a known key keeps its place |
| Discovery.StoredValues | eiscp/core.py:406 | listing the dictionary's values gives the deduplicated receiver list |
| Discovery.CollectReceivers | eiscp/core.py:371-406 | the loop fails exactly when some reply fails, with the first failure; otherwise it returns the deduplicated list of all receivers seen |
| Discovery.FirstSeen | eiscp/core.py:403 | the dictionary never holds more keys than insertions |
| Discovery.FirstSeenDistinct | eiscp/core.py:371-403 | dictionary keys are distinct |
| Discovery.FirstSeenOrder | eiscp/core.py:371-403 | dictionary keys follow the order of first insertion |
| Discovery.FirstSeenElements | eiscp/core.py:371-403 | the keys are exactly the identifiers inserted |
| Discovery.Dedup | eiscp/core.py:406 | the listed receivers are no more than those sighted, and each of them was sighted |
| Discovery.DedupCoversSightings | eiscp/core.py:403-406 | every identifier sighted has a receiver in the list, and every listed receiver was sighted |
| Discovery.DedupDistinct | eiscp/core.py:403-406 | no identifier is listed twice |
| Discovery.DedupFirstSightingOrder | eiscp/core.py:403-406 | receivers are listed in the order their identifiers were first sighted |
| Discovery.DedupLastSightingWins | eiscp/core.py:403-406 | the receiver listed for an identifier is its last sighting |
| Discovery.SameDeviceTwice | eiscp/core.py:368-403 | one device answering through two interfaces is listed once, as the later sighting |
| Text.Decode | eiscp/core.py:94 | bytes decode exactly when they are ASCII (else UnicodeDecodeError), to a text of the same length whose encoding is those bytes |
| Text.DecodeEncode | eiscp/core.py:80-94 | decoding the encoding of an ASCII text gives the text back |
| Text.StripTrailing | eiscp/core.py:311 | strip removes trailing white space from a text with non-space ends |
| Text.StripEnds | eiscp/core.py:311 | a stripped text is empty or starts and ends with a non-space character |
| Text.Split | eiscp/core.py:178-188 | re.split over a character class gives at least one part, no part holds a separator, and there is one part exactly when there is no separator |
| Text.SplitOnce | eiscp/core.py:177 | splitting once cuts at a separator, and the part before holds none |

## Left out

- Sockets, `select`, network interfaces and broadcasts in `discover`. The
  replies are a parameter: a sequence of (sender host, datagram) pairs in the
  order `recvfrom` returned them. The receive timeout only ends that sequence.
- The `eISCP` connection methods (`send`, `get`, `raw`, `command`, connect and
  disconnect), the threaded `Receiver` class and the NRI views. They are I/O,
  threads and XML/JSON handling around the modelled functions.
- The contents of the command catalogue module and of `ValueRange`. The
  catalogue is a parameter and a range is an inclusive interval.
- The wall clock and the blocking getter of `filter_for_message`. They become
  a trace of polls, each with the candidate returned and the elapsed seconds
  as a `real`.
- Logging.
- Text outside ASCII. Packets and commands are ASCII texts, so the character
  count written to the header and the UTF-8 byte count agree. Decoding a
  non-ASCII byte is a `UnicodeDecodeError`, even where UTF-8 would have
  decoded a multi-byte character.
- Commands.ScanValues: value-table keys that are patterns are kept as an
  entry kind that never matches, since the code skips them ("patterns not yet
  supported").
- Commands.IntOf: Python's `int()` also accepts surrounding white space,
  underscores and non-ASCII digits. `int()` runs only after
  `argument.lstrip("-").isdigit()` (`eiscp/core.py:225`) has accepted the
  argument, and `isdigit` rejects white space and underscores. The only extra
  form left is non-ASCII digits, which the model does not treat as digits; the
  line on text outside ASCII covers them.
- Buffer.MessageBuffer.Recv: the capacity is not enforced by `recv` in the
  code either. The contract states only that callers who read at most
  `available` bytes stay within it.
- Commands.ParseCommand: its own contract covers the error kind and the
  shape of a success. The tokenisation rules are stated by lemmas:
  `Commands.ParseCommandFails` and `Commands.ParseCommandNormal` for every
  text; `Commands.ParseOfTwoWords`, `Commands.ParseOfWords` and
  `Commands.ParseOfAssignmentForm` for every text, by the way it splits
  (`Commands.ParseOfThreeWords` is a special case of `Commands.ParseOfWords`),
  with `norm` applied to each token. The remaining lemmas name concrete forms
  such as "zone2 volume 66"; they take plain words of lower-case letters and
  digits, which `norm` leaves unchanged.
