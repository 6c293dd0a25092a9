# SSQLib: a Source Engine Query client, modelled in Dafny

SSQLib asks a game server that speaks Valve's Source Engine Query protocol
for two things: its server information (the A2S_INFO request, answered by
an 'I' reply) and its player list (the A2S_PLAYER request, answered by a
'D' reply once the client has obtained a challenge number with an 'A'
reply). This project models the byte-level core of that client:

- `wire.dfy` (module `Wire`): bytes, the little-endian integers that
  `BitConverter` reads on a little-endian host, zero-terminated strings and
  the cursor loop that reads them, and the zero-padded receive buffer.
- `records.dfy` (module `Records`): `ServerInfo` with the field types
  `SSQL.Server` assigns, the two enums of `ServerInfo.cs`, `PlayerInfo`,
  and `Reply`, the outcome of a query: a record, `NotThisReply` where the
  source returns null, `Malformed` where the source would read past the
  received bytes, `Unreachable` where it throws `SSQLServerException`.
- `info_reply.dfy` (module `InfoReply`): the layout of the information
  reply as a specification (`Decode`), the cursor walk of `SSQL.Server`
  (`DecodeInfo` and one method per group of fields) proved equal to it, a
  writer for the layout, and the round trip, exactness, zero-flags and
  trailing-byte properties.
- `player_reply.dfy` (module `PlayerReply`): the same for the player reply
  and the counted loop of `SSQL.Players`.
- `packet.dfy` (module `PacketCodec`): the class `Packet` and its
  `outputAsBytes`, which allocates a zeroed array, writes the 0xFF prefix
  index by index and copies the payload in place.
- `ssql.dfy` (module `Ssql`): the two queries. The UDP exchange is a
  parameter, a function from the request datagram to the reply datagram or
  to a failure; `Server` and `Players` are methods proved equal to the
  functions `ServerQuery` and `PlayersQuery`, and the end-to-end lemmas say
  what a query returns for a server that answers with well-formed replies.

The decoders take the datagram as it arrived. The source decodes a
12288-byte receive buffer that is zero beyond the datagram, so where the
model says `Malformed` the source reads zeros instead (or, with no zero
left, fails with an index error). `PaddedAgrees` in both reply modules
proves that in every other case decoding the padded buffer gives the same
answer as decoding the datagram.

## Model

| member | source | states |
|---|---|---|
| Wire.CString | SSQLib/SSQL.cs:86-93 | a string ends at the first zero byte: the text holds no zero and the input is text, terminator, rest; an input with no zero has no string |
| Wire.ReadCString | SSQLib/SSQL.cs:86-93 | the append loop finds a string exactly when `CString` does, returns the same text, and leaves the cursor one past the terminator |
| Wire.CStringRoundTrip | SSQLib/SSQL.cs:86-93 | a zero-free text written with its terminator reads back as that text, followed by exactly the bytes after it |
| Wire.CStringExtend | SSQLib/SSQL.cs:86-93 | bytes appended after a terminated string change neither the string nor what precedes them |
| Wire.Terminated | SSQLib/SSQL.cs:93 | a written string is the text, then the zero terminator, one byte longer than the text |
| Wire.Int16Of | SSQLib/SSQL.cs:139 | `BitConverter.ToInt16`: the value modulo 2^16 is the first byte plus 256 times the second |
| Wire.Int32Of | SSQLib/SSQL.cs:358 | the kills are the little-endian value of the four bytes modulo 2^32, read as two's complement: negative exactly when the top bit of the fourth byte is set |
| Wire.UInt64Of | SSQLib/SSQL.cs:208 | `BitConverter.ToUInt64`: the value is the sum of byte k times 256^k over the eight bytes |
| Wire.Int16Bytes | SSQLib/SSQL.cs:139 | every signed 16-bit value has a 2-byte encoding that reads back as it |
| Wire.Int32Bytes | SSQLib/SSQL.cs:358 | every signed 32-bit value has a 4-byte encoding that reads back as it |
| Wire.UInt64Bytes | SSQLib/SSQL.cs:208 | every unsigned 64-bit value has an 8-byte encoding that reads back as it |
| Wire.Int16BytesOf | SSQLib/SSQL.cs:139 | any two bytes are the encoding of the value they read as, so distinct byte pairs give distinct values |
| Wire.UInt64BytesOf | SSQLib/SSQL.cs:208 | any eight bytes are the encoding of the value they read as |
| Wire.LittleEndianInjective | SSQLib/SSQL.cs:208 | the little-endian value of a byte sequence determines the bytes |
| Wire.Signed | SSQLib/SSQL.cs:139 | two's complement: the signed value is in range, is non-negative exactly when the unsigned one is below half the range, and differs from it by 0 or the range |
| Wire.ReadByte | SSQLib/SSQL.cs:145 | a byte read succeeds exactly when a byte is left, and takes the first one |
| Wire.ReadInt16 | SSQLib/SSQL.cs:139-142 | a 16-bit read succeeds exactly when two bytes are left, decodes them, and moves the cursor by 2 |
| Wire.ReadUInt64 | SSQLib/SSQL.cs:208-209 | a 64-bit read succeeds exactly when eight bytes are left, decodes them, and moves the cursor by 8 |
| Wire.Int16RoundTrip | SSQLib/SSQL.cs:139-142 | a written 16-bit value reads back, leaving exactly the bytes after it |
| Wire.UInt64RoundTrip | SSQLib/SSQL.cs:208-209 | a written 64-bit value reads back, leaving exactly the bytes after it |
| Wire.ReadByteExtend | SSQLib/SSQL.cs:145 | appended bytes do not change a byte read |
| Wire.ReadInt16Extend | SSQLib/SSQL.cs:139-142 | appended bytes do not change a 16-bit read |
| Wire.ReadUInt64Extend | SSQLib/SSQL.cs:208-209 | appended bytes do not change a 64-bit read |
| Wire.Padded | SocketUtils.cs:37 | the receive buffer is 12288 bytes: the datagram, then zeros |
| InfoReply.HasFlag | SSQLib/SSQL.cs:200 | `(extraData & bit) == bit`; a flags byte of 0 announces no field |
| InfoReply.DedicatedOf | SSQLib/SSQL.cs:153-159 | the server type is LISTEN exactly for 'l', DEDICATED exactly for 'd', SOURCETV exactly for 'p', and stays NONE for every other byte |
| InfoReply.OSOf | SSQLib/SSQL.cs:164-168 | the OS is LINUX exactly for 'l', WINDOWS exactly for 'w', and stays NONE for every other byte |
| InfoReply.GameLabel | SSQLib/SSQL.cs:136 | `Game` is the description, " (", the folder and ")": 3 bytes longer than both, starting with the description and holding the folder before the last byte |
| InfoReply.Names | SSQLib/SSQL.cs:83-136 | the four strings: a success consumes at least their four terminators and sets no field other than name, map and `Game` |
| InfoReply.Counts | SSQLib/SSQL.cs:138-151 | the app id and three counts are read exactly when 5 bytes are left, the cursor moves past exactly those 5, and no other field is set |
| InfoReply.Codes | SSQLib/SSQL.cs:153-177 | the four code bytes are read exactly when 4 bytes are left, the cursor moves past exactly those 4, and no other field is set |
| InfoReply.Fields | SSQLib/SSQL.cs:83-192 | the base fields: a success consumes at least the 14 bytes of four terminators, the app id and the three counts, the four codes and the version's terminator, and sets no extension field (port, Steam id, SourceTV, keywords and game id keep their defaults) |
| InfoReply.PortField | SSQLib/SSQL.cs:200-204 | bit 0x80 clear: nothing is read; set: the step succeeds exactly when 2 bytes are left and consumes exactly them |
| InfoReply.SteamIdField | SSQLib/SSQL.cs:206-210 | bit 0x10 clear: nothing is read; set: the step succeeds exactly when 8 bytes are left and consumes exactly them |
| InfoReply.SourceTVFields | SSQLib/SSQL.cs:212-226 | bit 0x40 clear: nothing is read; set: a success consumes at least the 2-byte port and the name's terminator |
| InfoReply.KeywordsField | SSQLib/SSQL.cs:228-239 | bit 0x20 clear: nothing is read; set: a success consumes at least the terminator |
| InfoReply.GameIdField | SSQLib/SSQL.cs:241-245 | bit 0x01 clear: nothing is read; set: the step succeeds exactly when 8 bytes are left and consumes exactly them |
| InfoReply.Extension | SSQLib/SSQL.cs:197-245 | the five announced fields in order; a success never reads beyond the bytes given (`ExtensionExact` states exactly what it consumes) |
| InfoReply.Decode | SSQLib/SSQL.cs:75-247 | the information reply: never an unreachable server; a record needs at least 20 bytes, 'I' at byte 4 and a protocol of at least 7 (`DecodeOutcomes` states every outcome) |
| InfoReply.WithExtension | SSQLib/SSQL.cs:194-247 | after the version the answer is a record or malformed, never "not an info reply"; with nothing left the base record is returned unchanged |
| InfoReply.DecodeOutcomes | SSQLib/SSQL.cs:75-81 | the reply decoder never reports an unreachable server; it answers "not an info reply" exactly when byte 4 is not 'I' or byte 5 is below 7 (bytes 0 to 3 are not checked); a record needs that header and every base field up to the version's terminator |
| InfoReply.DecodeInfo | SSQLib/SSQL.cs:75-247 | the cursor walk of `Server` gives exactly the reply `Decode` specifies, including where it fails; a buffer exhausted right after the version gives the record unchanged |
| InfoReply.DecodeNames | SSQLib/SSQL.cs:83-136 | the four string loops succeed exactly when the layout has four terminated strings, set name, map and `Game` = description + " (" + folder + ")", and stop past the fourth terminator |
| InfoReply.DecodeCounts | SSQLib/SSQL.cs:138-151 | the app id and the three counts are read as the layout says, with the cursor moved past them |
| InfoReply.DecodeCodes | SSQLib/SSQL.cs:153-177 | the four code bytes are read as the layout says, with the cursor moved past them |
| InfoReply.DecodeExtension | SSQLib/SSQL.cs:197-247 | given a byte after the version, the flags byte and the fields it announces are read as `WithExtension` says |
| InfoReply.DecodePort | SSQLib/SSQL.cs:200-204 | bit 0x80 set: the port is the next 2 bytes and the cursor moves 2; clear: nothing changes |
| InfoReply.DecodeSteamId | SSQLib/SSQL.cs:206-210 | bit 0x10 set: the Steam id is the next 8 bytes and the cursor moves 8; clear: nothing changes |
| InfoReply.DecodeSourceTV | SSQLib/SSQL.cs:212-226 | bit 0x40 set: the SourceTV port is the next 2 bytes, then a terminated name; clear: nothing changes |
| InfoReply.DecodeKeywords | SSQLib/SSQL.cs:228-239 | bit 0x20 set: the keywords are the next terminated string; clear: nothing changes |
| InfoReply.DecodeGameId | SSQLib/SSQL.cs:241-245 | bit 0x01 set: the game id is the next 8 bytes and the cursor moves 8; clear: nothing changes |
| InfoReply.NamesLength | SSQLib/SSQL.cs:83-136 | the four strings take their lengths plus four terminators, and `Game` is 3 bytes longer than description and folder together |
| InfoReply.CountsLayout | SSQLib/SSQL.cs:138-151 | given 5 bytes: the app id is the little-endian signed 16-bit value at the cursor, then player count, max players and bot count in that order, and the cursor advances by exactly 5 |
| InfoReply.CodesLayout | SSQLib/SSQL.cs:153-177 | given 4 bytes: dedicated 'l'/'d'/'p' and OS 'l'/'w' map to their enum values and any other byte leaves NONE, password and VAC are true exactly when their byte is 0x01, each code takes one byte and none fails |
| InfoReply.UnterminatedNameIsMalformed | SSQLib/SSQL.cs:86-90 | a reply with no zero byte after the header never decodes to a record |
| InfoReply.FieldsLength | SSQLib/SSQL.cs:83-192 | the base fields take exactly the string lengths plus 11 bytes |
| InfoReply.EncodeExtras | SSQLib/SSQL.cs:197-245 | the extras block is as long as the sum of the sizes of exactly the announced fields |
| InfoReply.WithPort | SSQLib/SSQL.cs:200-204 | the port field sets no other extension field |
| InfoReply.WithSteamId | SSQLib/SSQL.cs:206-210 | the Steam id field sets no other extension field |
| InfoReply.WithSourceTV | SSQLib/SSQL.cs:212-226 | the SourceTV fields set no other extension field |
| InfoReply.WithKeywords | SSQLib/SSQL.cs:228-239 | the keywords field sets no other extension field |
| InfoReply.WithGameId | SSQLib/SSQL.cs:241-245 | the game id field sets no other extension field |
| InfoReply.PortFieldWritten | SSQLib/SSQL.cs:200-204 | a written port (or nothing, when its bit is clear) reads back, leaving exactly the bytes after it |
| InfoReply.SteamIdFieldWritten | SSQLib/SSQL.cs:206-210 | the same for the Steam id |
| InfoReply.SourceTVFieldsWritten | SSQLib/SSQL.cs:212-226 | the same for the SourceTV port and name |
| InfoReply.KeywordsFieldWritten | SSQLib/SSQL.cs:228-239 | the same for the keywords |
| InfoReply.GameIdFieldWritten | SSQLib/SSQL.cs:241-245 | the same for the game id |
| InfoReply.ExtensionRoundTrip | SSQLib/SSQL.cs:197-245 | written extras read back in the fixed order port, Steam id, SourceTV, keywords, game id, consuming exactly their bytes |
| InfoReply.NamesWritten | SSQLib/SSQL.cs:83-136 | four written strings read back as name, map and the combined game label |
| InfoReply.CountsWritten | SSQLib/SSQL.cs:138-151 | a written app id and three counts read back |
| InfoReply.CodesWritten | SSQLib/SSQL.cs:153-177 | written codes read back as their enum and boolean values |
| InfoReply.FieldsRoundTrip | SSQLib/SSQL.cs:83-192 | written base fields read back, leaving exactly the bytes after the version |
| InfoReply.DecodeEncode | SSQLib/SSQL.cs:52-248 | every well-formed info reply (any 4-byte prefix, protocol at least 7, any flags) decodes to exactly the record it was written from |
| InfoReply.PortFieldRead | SSQLib/SSQL.cs:200-204 | whatever the port step reads, it consumed exactly the encoding of the port it set (nothing when the bit is clear) |
| InfoReply.SteamIdFieldRead | SSQLib/SSQL.cs:206-210 | the same for the Steam id |
| InfoReply.SourceTVFieldsRead | SSQLib/SSQL.cs:212-226 | the same for the SourceTV port and name |
| InfoReply.KeywordsFieldRead | SSQLib/SSQL.cs:228-239 | the same for the keywords |
| InfoReply.GameIdFieldRead | SSQLib/SSQL.cs:241-245 | the same for the game id |
| InfoReply.ExtensionExact | SSQLib/SSQL.cs:197-245 | any successful read of the extras consumed exactly the encoding of the announced fields' values, an unset bit consuming nothing, and the fields of unset bits keep their values |
| InfoReply.ZeroFlagsReadNothing | SSQLib/SSQL.cs:197-245 | a flags byte of 0 reads no field and does not move the cursor |
| InfoReply.ZeroFlagsLikeExhausted | SSQLib/SSQL.cs:194-247 | a buffer that ends after the version and one whose flags byte is 0 give the same record, with no extension field set |
| InfoReply.NamesExtend | SSQLib/SSQL.cs:83-136 | appended bytes do not change the strings read |
| InfoReply.CountsExtend | SSQLib/SSQL.cs:138-151 | appended bytes do not change the counts read |
| InfoReply.CodesExtend | SSQLib/SSQL.cs:153-177 | appended bytes do not change the codes read |
| InfoReply.FieldsExtend | SSQLib/SSQL.cs:83-192 | appended bytes do not change the base fields read |
| InfoReply.ExtensionExtend | SSQLib/SSQL.cs:197-245 | appended bytes do not change the extension fields read |
| InfoReply.DecodeExtend | SSQLib/SSQL.cs:194-247 | a decoded record is unchanged by appended bytes, provided that when the reply ended right after the version they start with a zero |
| InfoReply.PaddedAgrees | SocketUtils.cs:37-51 | when the datagram alone is not malformed, decoding the zero-padded receive buffer gives the same answer |
| PlayerReply.TimeOf | SSQLib/SSQL.cs:364 | the time is the little-endian 16-bit value of two bytes: the first is the value modulo 256, the second the value divided by 256 |
| PlayerReply.PlayerLayout | SSQLib/SSQL.cs:341-367 | with k one past the name's terminator: the index is byte 0, the name bytes 1 to k-2 (zero-free), the kills the two's-complement value of bytes k to k+3, the time bytes k+5 and k+6, a record needs k+7 bytes and the next starts at k+8, so a record takes 1 + name + 1 + 8 bytes |
| PlayerReply.Stats | SSQLib/SSQL.cs:357-367 | the statistics after the name are read exactly when 7 bytes are left, and keep the index and name already read |
| PlayerReply.PlayerRecord | SSQLib/SSQL.cs:338-367 | one record: a success consumes at least 9 bytes: the index, the name's terminator and the 7 bytes the statistics are read from |
| PlayerReply.PlayerList | SSQLib/SSQL.cs:335-371 | a list of n records holds exactly n players |
| PlayerReply.Decode | SSQLib/SSQL.cs:326-374 | the player reply: never an unreachable server; a list needs 'D' at byte 4 and holds exactly as many players as byte 5 says |
| PlayerReply.DecodeOutcomes | SSQLib/SSQL.cs:326-332 | the reply decoder never reports an unreachable server, answers "not a player reply" exactly when byte 4 is not 'D', and a list has exactly as many players as byte 5 says |
| PlayerReply.ReadPlayer | SSQLib/SSQL.cs:338-370 | one round of the loop reads a record exactly when the layout has one at the cursor, and returns it with the cursor where the next one starts |
| PlayerReply.ReadStats | SSQLib/SSQL.cs:357-367 | the kills at the cursor, `i += 5`, the time at the cursor, `i += 3`: the statistics the layout specifies |
| PlayerReply.ReadPlayers | SSQLib/SSQL.cs:335-371 | the counted loop reads n records exactly when the layout has them, in wire order |
| PlayerReply.DecodePlayers | SSQLib/SSQL.cs:326-374 | the decoding half of `Players` gives exactly the reply `Decode` specifies |
| PlayerReply.PlayerRoundTrip | SSQLib/SSQL.cs:341-367 | a written record reads back as its index, name and score, with the middle two bytes of the duration float as the time, and the cursor stops at its end |
| PlayerReply.ListRoundTrip | SSQLib/SSQL.cs:335-371 | written records read back in order, each exactly once |
| PlayerReply.DecodeEncode | SSQLib/SSQL.cs:326-374 | a well-formed player reply with fewer than 256 players decodes to exactly the players it was written from |
| PlayerReply.TimeIsNotDuration | SSQLib/SSQL.cs:364 | players connected for 1.0 and 2.0 seconds get the times 32768 and 0 |
| PlayerReply.PlayerRecordExtend | SSQLib/SSQL.cs:341-367 | appended bytes do not change a record read |
| PlayerReply.ListExtend | SSQLib/SSQL.cs:335-371 | appended bytes do not change a list read |
| PlayerReply.PaddedAgrees | SocketUtils.cs:77-91 | when the datagram alone is not malformed, decoding the zero-padded receive buffer gives the same answer |
| PacketCodec.AsciiBytes | Packet.cs:33 | an ASCII payload becomes one byte per character, equal to its code |
| PacketCodec.Frame | Packet.cs:17-50 | bytes 0 to 3 are 0xFF; a non-empty payload gives |Data| + 5 bytes with the payload at 4 onwards and a final 0; an empty one gives 5 bytes ending in 'W' |
| PacketCodec.Packet.constructor | Packet.cs:11-14 | a new packet has request id 0 and empty data |
| PacketCodec.Packet.OutputAsBytes | Packet.cs:17-50 | returns a new array holding exactly `Frame` of the data's bytes; the request id plays no part |
| PacketCodec.CopyInto | Packet.cs:33 | the copy writes the payload at the offset and leaves the bytes before and after it unchanged |
| PacketCodec.FrameRoundTrip | Packet.cs:24-33 | dropping the first four bytes and reading up to the first zero gives a zero-free payload back, with nothing after it |
| PacketCodec.TextRoundTrip | Packet.cs:24-33 | the same for a payload given as ASCII text with no NUL character |
| PacketCodec.InfoQueryFrame | SSQLib/SSQL.cs:61-62 | "TSource Engine Query" is ASCII and frames as 25 bytes starting FF FF FF FF 54 and ending in 0, and reading the frame after the prefix gives the text back with nothing after it |
| Ssql.InfoRequest | SSQLib/SSQL.cs:61-62 | the information request is 25 bytes starting FF FF FF FF 54 |
| Ssql.PlayerRequest | SSQLib/SSQL.cs:303-313 | the player request is 9 bytes: FF FF FF FF 55, then bytes 5 to 8 of the challenge reply verbatim |
| Ssql.ServerQuery | SSQLib/SSQL.cs:52-248 | the information query reports an unreachable server exactly when the exchange fails |
| Ssql.Server | SSQLib/SSQL.cs:52-248 | the server query sends the framed packet and gives exactly `ServerQuery`: a failed exchange is an unreachable server, a received datagram is decoded |
| Ssql.ServerOutcomes | SSQLib/SSQL.cs:64-81 | the query reports an unreachable server exactly when the exchange fails, and "not an info reply" exactly when the reply's header is wrong |
| Ssql.ServerAnswers | SSQLib/SSQL.cs:52-248 | a server answering with a well-formed info reply is reported with exactly the fields it wrote |
| Ssql.NewProbe | SSQLib/SSQL.cs:276-285 | the challenge probe is exactly FF FF FF FF 55 00 00 00 00 |
| Ssql.NewPlayerRequest | SSQLib/SSQL.cs:303-313 | the player request filled byte by byte is `PlayerRequest` of the reply, and is built exactly when the reply has bytes 5 to 8 |
| Ssql.PlayersQuery | SSQLib/SSQL.cs:267-375 | the player query reports an unreachable server exactly when the probe's exchange fails |
| Ssql.Players | SSQLib/SSQL.cs:267-375 | the handshake and player decoding give exactly `PlayersQuery` |
| Ssql.PlayersOutcomes | SSQLib/SSQL.cs:287-329 | the query reports an unreachable server exactly when the probe's exchange fails, and gives null exactly when the challenge reply has something other than 'A' at byte 4, the second exchange fails, or the player reply has something other than 'D' at byte 4 |
| Ssql.ChallengeEchoed | SSQLib/SSQL.cs:300-313 | a challenge reply has 'A' at byte 4, and the player request built from it carries its four challenge bytes |
| Ssql.PlayersAnswers | SSQLib/SSQL.cs:267-375 | a server that hands out a challenge and answers the request carrying it with a well-formed player reply is reported with exactly the players it wrote, in order |

## Left out

- The UDP transport (SocketUtils.cs): socket creation, the 3000 ms send and receive timeouts, and sending and receiving are one exchange function that returns a datagram or a failure. Only the 12288-byte zero-padded receive buffer is kept, in `Padded` and the two `PaddedAgrees` lemmas.
- Decoding past the end of the datagram: the model reports `Malformed` where the source reads the buffer's zero padding. Because of the padding, the source's `buf.Length <= i` test before the extension block (SSQLib/SSQL.cs:194) is in practice never true, and for a challenge reply shorter than 9 bytes the source sends the challenge bytes present and zeros in place of the missing ones, where the model stops with `Malformed`.
- Datagrams longer than 12288 bytes, which the socket layer truncates or rejects.
- Transport nondeterminism: the exchange is a function, so the same request always gets the same answer within one query. In particular a server whose challenge is 00 00 00 00 receives a player request equal to the probe, and the model cannot give the two different answers the source could receive; `Ssql.PlayersAnswers` therefore says nothing about that challenge.
- Host resolution: the `(string ip, int port)` overloads and SSQLib/EndPointHelpers.cs are DNS lookups through the .NET library.
- The float type of `PlayerInfo.Time`: the model keeps the 16-bit integer the source converts to float. That integer is made of bytes 1 and 2 of the 4-byte duration float, which is not the duration (`TimeIsNotDuration`); decoding the float is not modelled.
- Text encoding: strings are byte sequences; the per-byte `(char)` conversion is the identity on bytes.
- PacketCodec.Packet.OutputAsBytes: requires ASCII data, because `UTF8.GetBytes` followed by a copy of `Data.Length` bytes truncates multi-byte characters; non-ASCII data is not modelled.
- Host endianness: `BitConverter` is assumed to run on a little-endian host.
- SSQLib/ServerInfo.cs as a class: its string-typed numeric properties, `IP` and the never-assigned `Locked` are not part of this model; the record uses the types SSQL.cs assigns, and the two enums become datatypes.
- The exception and null values themselves: `SSQLServerException` is `Unreachable`, `null` is `NotThisReply`, an index error is `Malformed`.
