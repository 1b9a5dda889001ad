# Paradox MG/SP serial client, modelled in Dafny

A model of a Python client for the serial protocol of Paradox MG and SP alarm panels, with proofs about it. A frame is 37 bytes. Its first byte is the command, its last a mod-256 checksum. The model covers four parts of the client:

- **Protocol** (`protocol.dfy`, from `paradox/protocol.py`): the checksum, the action-code tables, every `construct` message layout as an explicit table of offsets and kinds, the command-byte dispatcher `get_parser_by_command`, `parse_message`, and the four frame builders. Each builder is an imperative method over a 37-byte array, proved equal to a function that specifies the frame byte by byte.
- **Commands** (`commands.dfy`, from `paradox/commands.py`): checksum validation, the two response decoders, the reverse action-name search (a nested loop), the hex-dump formatter (a loop that appends lines), and the `send_*` wrappers over a `SerialConnection`.
- **Connection** (`connection.dfy`, from `paradox/connection.py`): an abstract serial port class and `SerialConnection`. The latter gates every operation on being connected. Its `read_variable_length` applies the "first byte above 4 is a length" rule and restores the port timeout on every way out. Each method is proved equal to a pure function of the link state (`Link`).
- **Panel** (`panel.dfy`, from `paradox/panel.py`): class `ParadoxPanel`. It covers the password encoding, the handshake (identify, then log in), the commands gated on authentication, the write-then-wait cycle, memory reads, live-event decoding and the event monitor. Each method is proved equal to a pure function of the session (`Session`: link, panel info, authenticated flag), and the session rules are lemmas about those functions.

`text.dfy` holds the numerals the client prints (`{:02X}`, `{:04X}`, `{}`), with their read-back values. `wrappers.dfy` holds `Option`, `Result` and the exceptions the client raises (as `Error` values).

The serial link is abstract. Bytes the panel sends arrive in chunks, one chunk per 10 ms poll interval that the client sleeps through. Every written frame is logged. A port can be marked faulty, in which case every read or write on it raises. Wall-clock time is counted in poll intervals: the 5-second response timeout is 500 intervals.

Where the written code and its documentation disagree, the model follows the code:
- the identity response puts the source id at byte 29 and the user id at byte 30;
- a login answered by 0x70 leaves the authenticated flag and panel_info unchanged;
- decoding never checks the checksum;
- `arm_partition`'s docstring names a mode `arm_away`, but no such mode is in `PARTITION_ACTIONS`, so it is refused;
- the login acknowledgement 0x10 is above 4, so `read_variable_length` takes it for a length and reads it as a 16-byte frame (`Connection.AcknowledgementReadAsLength`).

## Model

| member | source | states |
|---|---|---|
| Protocol.ChecksumExtend | paradox/protocol.py:20-32 | the checksum, the byte sum modulo 256, grows by each byte taken in, modulo 256 |
| Protocol.ChecksumDetectsOneByteChange | paradox/protocol.py:20-32 | replacing any single byte by a different value always changes the checksum |
| Protocol.Checksum | paradox/protocol.py:20-32 | no bytes give 0 and a single byte gives itself; `ChecksumExtend` gives the rest, one byte at a time |
| Protocol.Lookup | paradox/protocol.py:72-93 | `table.get(name)` gives a code exactly when some entry has that name, and then the code of such an entry |
| Protocol.ActionTablesDisjoint | paradox/protocol.py:72-93 | the partition, zone and PGM tables hold exactly the codes {1,2,4,5,6,7}, {0x10} and {0x32..0x35}, pairwise disjoint |
| Protocol.InitiateCommunicationWellFormed | paradox/protocol.py:101-110 | the InitiateCommunication offset table lays its fields back to back over 37 bytes |
| Protocol.InitiateCommunicationResponseWellFormed | paradox/protocol.py:114-137 | the identity-response table tiles 37 bytes |
| Protocol.InitializeCommunicationMgspWellFormed | paradox/protocol.py:145-164 | the MGSP login table tiles 34 bytes |
| Protocol.InitializeCommunicationResponseMgspWellFormed | paradox/protocol.py:167-176 | the login-response table tiles 36 bytes |
| Protocol.PerformActionWellFormed | paradox/protocol.py:184-197 | the PerformAction table tiles 36 bytes |
| Protocol.PerformActionResponseWellFormed | paradox/protocol.py:201-210 | the PerformActionResponse table tiles 36 bytes |
| Protocol.ReadEepromWellFormed | paradox/protocol.py:218-231 | the ReadEEPROM table tiles 36 bytes |
| Protocol.ReadEepromResponseWellFormed | paradox/protocol.py:235-246 | the ReadEEPROMResponse table tiles 33 bytes |
| Protocol.LiveEventWellFormed | paradox/protocol.py:254-271 | the LiveEvent table tiles 35 bytes |
| Protocol.ValueAt | paradox/protocol.py:114-137 | a field inside the input yields a value: Int8ub below 256, Int16ub below 65536, Bytes(n) exactly n bytes |
| Protocol.Parse | paradox/protocol.py:307-332 | `Struct.parse` succeeds exactly when the input covers the layout and every Const byte matches, and then yields one value per field |
| Protocol.ParseIgnoresTrailingBytes | paradox/protocol.py:114-271 | a layout decodes only its own prefix: bytes past its length change nothing |
| Protocol.ParseGet | paradox/protocol.py:307-332 | the parsed value of a named field is the one read at that field's offset |
| Protocol.ParserFor | paradox/protocol.py:277-304 | a layout is chosen exactly for 0x40-0x5F, 0xE0-0xEF, 0x72, 0x00, 0x10 and 0x70 |
| Protocol.DispatchTable | paradox/protocol.py:277-304 | the ranges win over the dictionary: 0x40-0x4F (0x40 included) choose PerformActionResponse, 0x50-0x5F ReadEEPROMResponse, 0xE0-0xEF LiveEvent, and the exact bytes their entries; the request layouts PerformAction and ReadEEPROM are never chosen |
| Protocol.ParseMessage | paradox/protocol.py:307-332 | a message parses exactly when it has at least 2 bytes, its first byte chooses a layout and that layout accepts it; the result is that layout's parse |
| Protocol.Seal | paradox/protocol.py:344 | a sealed 37-byte frame keeps its first 36 bytes and ends with their checksum |
| Protocol.InitiateFrame | paradox/protocol.py:339-345 | 37 bytes: 0x72, zeros at 1-34, the user id at 35, the checksum of bytes 0-35 at 36; ValueError for a user id outside 0..255 |
| Protocol.InitializeFrame | paradox/protocol.py:348-375 | command 0, product, firmware triple, panel id high then low byte, the password at 7-8, source at 12, user at 13 and 35, zeros elsewhere below 36, checksum at 36; the slice assignment makes the frame 35+len(password) bytes long, and a password shorter than 2 bytes raises IndexError |
| Protocol.PerformActionFrame | paradox/protocol.py:378-398 | 37 bytes: 0x40, action at 4, argument at 5, source at 33, user at 34 and 35, zeros at 1-3 and 6-32, checksum at 36; ValueError for any argument outside 0..255 |
| Protocol.ReadEepromFrame | paradox/protocol.py:401-422 | 37 bytes: 0x50, the address modulo 2^16 big-endian at 2-3, records at 4, source at 33, user at 34 and 35, zeros elsewhere, checksum at 36 |
| Protocol.SplitAddress | paradox/protocol.py:411-412 | `(a >> 8) & 0xFF` and `a & 0xFF` are the two bytes of `a` modulo 2^16, negative `a` included |
| Protocol.BuildInitiateCommunication | paradox/protocol.py:339-345 | the in-place array builder returns exactly `InitiateFrame` |
| Protocol.BuildInitializeCommunicationMgsp | paradox/protocol.py:348-375 | the in-place builder, slice assignment included, returns exactly `InitializeFrame` or its exception |
| Protocol.BuildPerformAction | paradox/protocol.py:378-398 | the in-place builder returns exactly `PerformActionFrame` |
| Protocol.BuildReadEeprom | paradox/protocol.py:401-422 | the in-place builder returns exactly `ReadEepromFrame` |
| Protocol.IdentityProduct | paradox/protocol.py:114-137 | the identity response reads the product id at byte 6 |
| Protocol.IdentityVersion | paradox/protocol.py:114-137 | firmware version at byte 7 |
| Protocol.IdentityRevision | paradox/protocol.py:114-137 | firmware revision at byte 8 |
| Protocol.IdentityMinor | paradox/protocol.py:114-137 | firmware minor at byte 9 |
| Protocol.IdentityPanel | paradox/protocol.py:114-137 | panel id big-endian at bytes 10-11 |
| Protocol.IdentityPassword | paradox/protocol.py:114-137 | PC password at bytes 12-13 |
| Protocol.IdentitySource | paradox/protocol.py:114-137 | source id at byte 29 |
| Protocol.ReplyCommandField | paradox/protocol.py:235-246 | the EEPROM reply reads its command at byte 0 |
| Protocol.ReplyAddressField | paradox/protocol.py:235-246 | address big-endian at bytes 2-3 |
| Protocol.ReplyRecordsField | paradox/protocol.py:235-246 | record count at byte 4 |
| Protocol.ReplyDataField | paradox/protocol.py:235-246 | data: bytes 5 to 31, 27 bytes |
| Protocol.LiveEventCommand | paradox/protocol.py:254-271 | a live event reads its command at byte 0 |
| Protocol.LiveEventGroup | paradox/protocol.py:254-271 | event group at byte 2 |
| Protocol.LiveEventFirst | paradox/protocol.py:254-271 | event 1 at byte 3 |
| Protocol.LiveEventSecond | paradox/protocol.py:254-271 | event 2 at byte 4 |
| Protocol.LiveEventPartition | paradox/protocol.py:254-271 | partition at byte 5 |
| Protocol.LiveEventLabelType | paradox/protocol.py:254-271 | label type at byte 10 |
| Protocol.LiveEventLabel | paradox/protocol.py:254-271 | label: bytes 11 to 26, 16 bytes |
| Protocol.InitiateFrameParses | paradox/protocol.py:101-110 | a built InitiateCommunication frame parses with its own layout, which reads back the user id and a true checksum |
| Protocol.PerformActionFrameParses | paradox/protocol.py:184-197 | a built PerformAction frame parses with its layout and reads back action, argument, source and user; the 36-byte layout's checksum field falls on the repeated user id at 35 |
| Protocol.ReadEepromFrameParses | paradox/protocol.py:218-231 | a built ReadEEPROM frame parses and reads back the address modulo 2^16, records, source and user |
| Protocol.InitializeFrameAccepted | paradox/protocol.py:145-164 | a built login frame parses with its layout exactly when the user id is 0, the layout's Const |
| Protocol.InitializeFrameFirmware | paradox/protocol.py:145-164 | the login layout reads back the product and firmware bytes of a built frame |
| Protocol.InitializeFrameIdentity | paradox/protocol.py:145-164 | the login layout reads back the panel id modulo 2^16, the password and the source id |
| Protocol.ResponseAcceptance | paradox/protocol.py:114-271 | the identity response parses exactly when 37 bytes long and opening 0x72 0xFF; the other panel-to-PC layouts exactly when the input covers their length (36, 36, 33, 35) |
| Protocol.LoginAcceptance | paradox/protocol.py:145-164 | the login layout parses exactly when the input has 34 bytes, command 0 and user id 0 |
| Protocol.FirstConstOnly | paradox/protocol.py:184-231 | a layout whose only Const is its first field checks only the length and that byte |
| Commands.ValidateChecksum | paradox/commands.py:124-150 | False below 2 bytes; otherwise True exactly when the last byte is the sum of the others modulo 256 |
| Commands.BuiltFramesValidate | paradox/protocol.py:339-422 | every frame the InitiateCommunication, PerformAction and ReadEEPROM builders return passes `validate_checksum` |
| Commands.LoginFrameValidates | paradox/protocol.py:348-375 | a 37-byte login frame passes `validate_checksum` |
| Commands.ValidationDetectsOneByteChange | paradox/commands.py:124-150 | changing any single byte of a valid frame makes it invalid |
| Commands.ParsePerformActionResponse | paradox/commands.py:153-187 | None exactly below 2 bytes; otherwise the command byte, and success exactly for 0x40 |
| Commands.Classify | paradox/commands.py:163-187 | 0x40-0x43 map to success, fail, invalid_argument and user_code_required in that order; every other command is unknown |
| Commands.ActionReplyClassification | paradox/commands.py:163-187 | 0x40 success, 0x41 fail, 0x42 invalid_argument, 0x43 user_code_required, anything else unknown; success exactly when the result is success |
| Commands.EepromReplyFields | paradox/commands.py:190-217 | None exactly below 33 bytes; otherwise command at 0, address big-endian at 2-3, records at 4, the 27 data bytes 5-31 |
| Commands.ParseReadEepromResponse | paradox/commands.py:190-217 | Some exactly for 33 bytes or more |
| Commands.EepromReplyDecoded | paradox/commands.py:200-213 | a reply of at least 33 bytes decodes to the command at 0, the big-endian address at 2-3, the records at 4 and the data bytes 5-31 |
| Commands.ReadRequestDecodesAsResponse | paradox/commands.py:190-217 | a ReadEEPROM request decoded as a reply gives back 0x50, its address modulo 2^16, its record count and 27 zero bytes |
| Commands.FirstName | paradox/commands.py:231-234 | the search of one table finds nothing exactly when no entry has the code, and otherwise a name listed with that code |
| Commands.FirstNameAfter | paradox/commands.py:231-234 | the search of one table returns the name of the first entry with the code |
| Commands.GetActionName | paradox/commands.py:220-236 | the nested loop with early return yields `ActionName`: the first matching name over the partition, zone and PGM tables in order, else `unknown_0x` and the code in uppercase hex |
| Commands.SearchTables | paradox/commands.py:231-234 | the outer loop returns the first table's first matching name |
| Commands.FirstNameInAt | paradox/commands.py:231-234 | when the tables before one lack the code, the search returns that table's first match, or nothing past the last table |
| Commands.ActionName | paradox/commands.py:220-236 | a code some table lists gets the first name the search finds; any other code gets a name `unknown_0x` followed by at least two hex digits (`UnlistedActionName` and `ActionNameLooksBack` give it exactly) |
| Commands.BypassActionName | paradox/protocol.py:82-85 | code 0x10, shared by bypass and clear_bypass, is named "bypass" |
| Commands.DisarmActionName | paradox/commands.py:231-236 | code 0x05 is named "disarm" |
| Commands.UnlistedActionName | paradox/commands.py:236 | a byte in no table is named `unknown_0x` followed by its two uppercase hex digits |
| Commands.ActionNameLooksBack | paradox/commands.py:220-236 | the name found for a listed code looks that code back up in its own table; an unlisted code gets the unknown name |
| Commands.FirstNameLookup | paradox/commands.py:231-234 | in a table of distinct names, the name found for a code is looked up back to that code |
| Commands.HexPairFormat | paradox/commands.py:259 | each byte prints as `{:02X}`, two uppercase hex digits reading back to the byte |
| Commands.Printable | paradox/commands.py:263 | the ASCII column has one character per byte: the byte itself for 32..126, '.' otherwise |
| Commands.LeftJustify | paradox/commands.py:260 | `ljust` keeps the text as its prefix and pads it with spaces to the width; text already as long is kept as it is |
| Commands.FormatHexDump | paradox/commands.py:239-267 | the loop that appends one line per chunk yields `HexDump`; a zero width raises ValueError as `range` does |
| Commands.HexBytesAt | paradox/commands.py:259 | the hex column of a chunk is 3n-1 characters: byte j as two hex digits at 3j, a space after each but the last |
| Commands.DumpLineShape | paradox/commands.py:259-260 | the justified hex column is exactly 3 times the width, with byte j's two digits at 3j reading back to it |
| Commands.DumpLinesAt | paradox/commands.py:252-265 | line k is the dump line of the chunk starting at k times the width, at offset k times the width |
| Commands.SliceCount | paradox/commands.py:252 | `range(start, len, width)` has ceil((len-start)/width) steps |
| Commands.DumpLineHasNoNewline | paradox/commands.py:256-265 | no dump line contains a line break |
| Commands.HexDumpLines | paradox/commands.py:239-267 | the dump has ceil(n/width) lines joined by line breaks, so ceil(n/width)-1 of them, and is empty exactly for empty data |
| Commands.HexDump | paradox/commands.py:239-267 | a zero width raises ValueError as `range` does, even for no data; a negative width, or no data, gives the empty dump |
| Commands.DumpLineOffset | paradox/commands.py:256 | below 0x10000 a line opens with exactly four hex digits of its offset, reading back to it, then two spaces |
| Commands.Transmit | paradox/commands.py:13-121 | a send succeeds exactly when the builder succeeded and the port is connected and working; it then logs exactly the built frame and returns it, and otherwise writes nothing |
| Commands.SendInitiateCommunication | paradox/commands.py:13-26 | writes and returns `build_initiate_communication(0)` |
| Commands.SendInitializeMgsp | paradox/commands.py:29-53 | writes and returns the login frame built from the arguments, source 1 and user 0 |
| Commands.SendArmCommand | paradox/commands.py:56-76 | writes and returns the PerformAction frame with the action code and the partition unshifted |
| Commands.SendBypassCommand | paradox/commands.py:79-98 | writes and returns the PerformAction frame 0x10 with the zone unshifted |
| Commands.SendReadEeprom | paradox/commands.py:101-121 | writes and returns the ReadEEPROM frame for the address and records |
| Connection.Take | paradox/connection.py:113-142 | a read of `n` bytes returns at most `n` and at most what has arrived, and all of it when fewer have arrived |
| Connection.Tick | paradox/panel.py:215 | one poll interval moves the next chunk the panel sends into the receive buffer and changes nothing else, the fault flag included |
| Connection.FrameLengthRule | paradox/connection.py:178-185 | a first byte above 4 gives the target length min(b, max_length); a byte of 4 or less gives 37 whatever max_length is |
| Connection.ReadFrameShape | paradox/connection.py:144-202 | the frame read is a prefix of what has arrived and the rest stays; it is empty exactly when nothing has arrived, and otherwise starts with the first byte and is 1 to the target length long; only the receive buffer changes |
| Connection.ReadFrameFull | paradox/connection.py:186-191 | when the whole target length has arrived, exactly that many bytes are read |
| Connection.AcknowledgementReadAsLength | paradox/connection.py:178-182 | a 37-byte answer opening with 0x10 is read as 16 bytes and leaves 21 waiting |
| Connection.LargeFirstByteClamped | paradox/connection.py:178-182 | a first byte 0xE2 is clamped to max_length 37 |
| Connection.DisconnectedIsInert | paradox/connection.py:81-219 | while not connected, write, read and read_variable_length raise and change nothing, available is 0 and flush_input does nothing |
| Connection.Send | paradox/connection.py:81-111 | a write succeeds exactly when connected and working; it then returns the length and logs the data; nothing but the log changes, and a failed write changes nothing |
| Connection.Receive | paradox/connection.py:113-142 | a read succeeds exactly when connected and working; it returns the first `Take` bytes received and leaves the rest; nothing but the receive buffer changes, and a failed read changes nothing |
| Connection.ReadFrame | paradox/connection.py:144-202 | a frame read succeeds exactly when connected and working; the frame is taken from the front of what was received; only the receive buffer changes (the timeout is back as it was) |
| Connection.Pending | paradox/connection.py:204-213 | the number of bytes received, 0 when not connected |
| Connection.Flush | paradox/connection.py:215-219 | on a connection the received bytes are dropped and nothing else changes; otherwise nothing changes |
| Connection.Hangup | paradox/connection.py:70-75 | after disconnect the connection is not connected; `_connected` is cleared only when the port was open; only the two flags change |
| Connection.Port.constructor | paradox/connection.py:24-37 | a fresh port is closed, with nothing received or written |
| Connection.Port.Open | paradox/connection.py:39-68 | opening sets the timeout and starts with an empty receive buffer |
| Connection.Port.Close | paradox/connection.py:70-75 | closing changes only the open flag |
| Connection.Port.Read | paradox/connection.py:113-142 | a read on a closed or faulty port raises; otherwise it takes the first `Take` bytes of the buffer and leaves the rest |
| Connection.Port.Write | paradox/connection.py:81-111 | a write on a closed or faulty port raises; otherwise it logs the data and returns its length |
| Connection.Port.ResetInputBuffer | paradox/connection.py:215-219 | discards what has been received, nothing else |
| Connection.Port.Elapse | paradox/panel.py:215 | a sleep of one poll interval: the next chunk arrives |
| Connection.SerialConnection.constructor | paradox/connection.py:24-37 | a new connection is not connected |
| Connection.SerialConnection.Connect | paradox/connection.py:39-68 | connect opens the port with the configured timeout and marks the connection connected |
| Connection.SerialConnection.Disconnect | paradox/connection.py:70-75 | the new link state is `Hangup` of the old one |
| Connection.SerialConnection.IsConnected | paradox/connection.py:77-79 | connected exactly when `_connected` is set and the port is open |
| Connection.SerialConnection.Write | paradox/connection.py:81-111 | result and new state are those of `Send`: gated on being connected |
| Connection.SerialConnection.Read | paradox/connection.py:113-142 | result and new state are those of `Receive`: gated on being connected |
| Connection.SerialConnection.ReadVariableLength | paradox/connection.py:144-202 | result and new state are those of `ReadFrame`; the port timeout is set for the first byte and restored on every way out |
| Connection.SerialConnection.Available | paradox/connection.py:204-213 | the bytes waiting, 0 when not connected |
| Connection.SerialConnection.FlushInput | paradox/connection.py:215-219 | empties the receive buffer only when connected |
| Panel.HexHalf | paradox/panel.py:51-60 | `int(pair, 16)` yields a value in -15..255, negative only after a leading minus |
| Panel.EncodePassword | paradox/panel.py:38-60 | ValueError about the length exactly when not 4 characters long; the result is Ok exactly when both pairs are accepted by `int(.., 16)` and are bytes, and then holds their two values; otherwise the hex ValueError |
| Panel.EncodeHexPassword | paradox/panel.py:51-60 | four hex digits encode to [16·d0+d1, 16·d2+d3] |
| Panel.EncodePasswordInvertsHex | paradox/panel.py:51-60 | encoding the four-digit hex text of two bytes gives back those bytes |
| Panel.PasswordExamples | paradox/panel.py:38-60 | "abcd" is [0xAB, 0xCD], "1234" is [0x12, 0x34], and a missing `pc_password` setting means "0000" |
| Panel.PasswordLeniency | paradox/panel.py:51-60 | `int()` skips ASCII whitespace around a pair and accepts a signed pair: " 1-0" gives [1, 0] and "\t5ab" [5, 0xAB]; "-1ab" (a negative value), "12g4" and "\x1c5ab" (0x1C is no whitespace to `int`) raise ValueError, and so does "123" |
| Panel.PasswordSetting | paradox/panel.py:130 | the configured `pc_password`, "0000" when there is none |
| Panel.FirmwareString | paradox/panel.py:98 | the three decimal numerals and two more characters (`FirmwareStringParts`: the two dots) |
| Panel.FirmwareStringParts | paradox/panel.py:98 | the firmware string is version, '.', revision, '.', minor, in decimal |
| Panel.FirmwareStringReadsBack | paradox/panel.py:98 | the firmware string holds only decimal digits besides its two dots, and each part reads back to its number |
| Panel.InfoOf | paradox/panel.py:94-104 | panel_info holds product id, firmware triple, panel id (big-endian, below 2^16), password bytes and source id at their offsets, and the "v.r.m" firmware string |
| Panel.Listen | paradox/panel.py:200-213 | one interval of the wait: a frame is kept only if non-empty, at most 37 bytes and opening with an expected byte; on a disconnected link nothing happens; only the receive buffer changes |
| Panel.WaitOnlyReads | paradox/panel.py:184-218 | waiting never writes: only the receive buffer and pending arrivals change; an exception only from a faulty connected port |
| Panel.SilenceTimesOut | paradox/panel.py:216-218 | when the panel sends nothing the wait returns None and changes nothing |
| Panel.WaitTakesFirstFrame | paradox/panel.py:200-213 | a frame opening with an expected byte is returned at once; any other frame is dropped and the wait goes on at the next interval |
| Panel.AnswerInNextInterval | paradox/panel.py:184-218 | an expected 37-byte answer arriving in the next interval is what the wait returns |
| Panel.Wait | paradox/panel.py:184-218 | whatever the wait returns opens with an expected byte and is at most 37 bytes |
| Panel.Exchange | paradox/panel.py:220-237 | a frame is returned only when a response was expected, and opens with an expected byte |
| Panel.ExchangeWritesOnce | paradox/panel.py:220-237 | a command writes its frame once and then only reads; on a disconnected or faulty port it raises and changes nothing |
| Panel.Identify | paradox/panel.py:62-112 | identification never touches the authenticated flag, and replaces panel_info only when it returns new information |
| Panel.IdentifyReadsAnswer | paradox/panel.py:62-112 | flushes, writes `build_initiate_communication(0)`, and an identity answer in the next interval becomes panel_info |
| Panel.IdentifySendsAndDecodes | paradox/panel.py:62-112 | on a working link: one InitiateCommunication written after the flush and nothing more; panel information returned exactly when the first 0x72 answer parses, and it is the information read from that answer |
| Panel.Authenticate | paradox/panel.py:114-162 | the flag becomes set exactly when the login returns True and is never cleared; panel_info stays |
| Panel.LoginWritesFrame | paradox/panel.py:114-162 | with panel information, an encodable password and a working link, exactly the InitializeCommunication frame is written, and the result is whether the first 0x10/0x70 answer is 0x10 |
| Panel.LoginAcceptedBy0x10 | paradox/panel.py:123-162 | the login returns True exactly when panel_info is known, the password encodes, the frame is built with source 1 and user 0 and written, and the answer opens with 0x10 |
| Panel.LoginNeedsIdentity | paradox/panel.py:123-125 | without panel_info the login returns False and writes nothing |
| Panel.NamedProductLoginRaises | paradox/protocol.py:362 | as written, a panel whose product id the Enum names gets TypeError from the login once the password encodes, with nothing written and no flag set |
| Panel.AuthenticateAsWritten | paradox/protocol.py:362 | as written, the flag is set only by a login returning True and panel_info stays; a panel whose product id the Enum names never logs in |
| Panel.SpectraLoginRaises | paradox/panel.py:134-141 | as written, an SP5500 (product 21) with the default password cannot log in: TypeError before anything is sent |
| Panel.UnnamedProductLogin | paradox/protocol.py:39-54 | a product id the Enum does not name stays an int, and the written login then behaves as modelled |
| Panel.UnauthenticatedCommandsAreInert | paradox/panel.py:255-257 | not authenticated: arm, disarm and bypass return False and read_status None, all without writing |
| Panel.Act | paradox/panel.py:268-288 | an action changes only the link |
| Panel.Arm | paradox/panel.py:239-288 | arming changes only the link, and before the login returns False and changes nothing |
| Panel.Disarm | paradox/panel.py:290-327 | disarming changes only the link, and before the login returns False and changes nothing |
| Panel.Bypass | paradox/panel.py:329-366 | a bypass changes only the link, and before the login returns False and changes nothing |
| Panel.ReadStatus | paradox/panel.py:368-406 | read_status changes only the link, and before the login returns None and changes nothing |
| Panel.PartitionModeCodes | paradox/protocol.py:72-79 | "arm_stay" is 1, "arm_sleep" 2, "arm" 4, "disarm" 5, "arm_stay_instant" 6 and "arm_instant" 7 |
| Panel.ArmByMode | paradox/panel.py:255-288 | once logged in, for every mode: one the partition table does not list returns False and writes nothing; a listed one performs its code on the partition |
| Panel.ArmUnknownMode | paradox/panel.py:260-263 | any string other than the six partition mode names returns False and leaves the session as it was |
| Panel.PartitionModeNames | paradox/protocol.py:72-79 | the partition table names exactly the six modes arm_stay, arm_sleep, arm, disarm, arm_stay_instant and arm_instant |
| Panel.ArmModes | paradox/panel.py:239-288 | "arm_away", named in the docstring, returns False and writes nothing; each of the six modes sends its code, and "disarm" is the same as disarm_partition |
| Panel.ActSendsOneFrame | paradox/panel.py:268-288 | an action writes exactly `build_perform_action(code, number-1, 1, 0)` and returns True exactly when the answer opens with 0x40 |
| Panel.ActRejectsNumber | paradox/panel.py:268-273 | a partition or zone number whose predecessor is not a byte raises ValueError before anything is written |
| Panel.ArmAcknowledged | paradox/panel.py:239-288 | arming partition 1 answered by 0x40 returns True after writing the frame for code 4 and argument 0 |
| Panel.DisarmRefused | paradox/panel.py:290-327 | a disarm answered by 0x41-0x4F returns False after writing the frame for code 5 |
| Panel.ReadStatusData | paradox/panel.py:368-406 | memory read back is exactly the 27 data bytes 5-31 of the answer |
| Panel.ReadStatusAnswered | paradox/panel.py:368-406 | once logged in, an answer of 33 bytes or more always yields memory bytes |
| Panel.AsciiIgnore | paradox/panel.py:428 | `decode('ascii', errors='ignore')` gives at most one character per byte, all below 128 |
| Panel.AsciiIgnoreByte | paradox/panel.py:428 | a byte below 128 decodes to itself, any other byte to nothing |
| Panel.AsciiIgnoreAppend | paradox/panel.py:428 | decoding works byte by byte: kept bytes keep their order |
| Panel.AsciiKept | paradox/panel.py:428 | a label of ASCII bytes decodes to the same characters |
| Panel.StripNul | paradox/panel.py:428 | `strip('\x00')` is no longer than its input, empty exactly when the input is all NULs, and has no NUL at either end |
| Panel.StripNulShape | paradox/panel.py:428 | `strip('\x00')` is a slice of the text, and everything before and after that slice is NUL |
| Panel.PlainLabel | paradox/panel.py:428 | a label without NULs or non-ASCII bytes is kept as it is |
| Panel.HandleLiveEvent | paradox/panel.py:408-439 | an event decodes exactly when at least 35 bytes long, into command, group, event 1 and 2, partition, label type and the stripped ASCII label at their offsets |
| Panel.Poll | paradox/panel.py:462-477 | one interval of the monitor: only a frame 0xE0-0xEF becomes an event; only the receive buffer changes |
| Panel.PollEvent | paradox/panel.py:462-477 | a waiting 0xE0-0xEF frame of 37 bytes is read whole and decoded |
| Panel.MonitorStep | paradox/panel.py:455-477 | each interval yields its event, if any, before those of later intervals: events come in arrival order |
| Panel.MonitorYieldsEvents | paradox/panel.py:455-477 | every yielded event is 0xE0-0xEF, at most one per interval and within the duration |
| Panel.Monitor | paradox/panel.py:441-480 | monitoring never writes: only the receive buffer and pending arrivals change |
| Panel.MonitorLimits | paradox/panel.py:458-459 | once the duration has run out nothing is read or yielded; a disconnected link yields nothing |
| Panel.EventYielded | paradox/panel.py:462-477 | an event waiting at the start is the first one yielded |
| Panel.ParadoxPanel.constructor | paradox/panel.py:25-36 | a new panel has no panel_info and is not authenticated |
| Panel.ParadoxPanel.ListenOnce | paradox/panel.py:200-213 | one interval of the loop has the effect of `Listen` |
| Panel.ParadoxPanel.WaitForResponse | paradox/panel.py:184-218 | the polling loop has the effect of `Wait` |
| Panel.ParadoxPanel.SendCommand | paradox/panel.py:220-237 | has the effect of `Exchange` |
| Panel.ParadoxPanel.InitiateCommunication | paradox/panel.py:62-112 | has the effect of `Identify` on the panel's fields and link |
| Panel.ParadoxPanel.InitializeCommunication | paradox/panel.py:114-162 | has the effect of `Authenticate` |
| Panel.ParadoxPanel.Perform | paradox/panel.py:268-288 | has the effect of `Act` |
| Panel.ParadoxPanel.ArmPartition | paradox/panel.py:239-288 | has the effect of `Arm` |
| Panel.ParadoxPanel.DisarmPartition | paradox/panel.py:290-327 | has the effect of `Disarm` |
| Panel.ParadoxPanel.BypassZone | paradox/panel.py:329-366 | has the effect of `Bypass` |
| Panel.ParadoxPanel.ReadStatusMemory | paradox/panel.py:368-406 | has the effect of `ReadStatus` |
| Panel.ParadoxPanel.PollOnce | paradox/panel.py:462-477 | one interval of the monitor loop has the effect of `Poll` |
| Panel.ParadoxPanel.MonitorEvents | paradox/panel.py:441-480 | the loop has the effect of `Monitor` over the given horizon |
| Text.NumeralValue | paradox/commands.py:236 | a printed numeral reads back to its number |
| Text.HexNumeral | paradox/commands.py:256 | `{:0wX}` gives at least w uppercase hex digits reading back to the number |
| Text.NumeralLength | paradox/commands.py:256 | a number below base^k has at most k digits |
| Text.HexWidth | paradox/commands.py:256 | below 16^w, `{:0wX}` has exactly w digits |
| Text.HexByte | paradox/commands.py:236 | a byte prints as `{:02X}`, its two hex digits |
| Text.DecimalNumeral | paradox/panel.py:98 | `{}` of a number is decimal digits reading back to it |
| Text.LeadingZerosValue | paradox/commands.py:256 | leading zeros do not change a numeral's value |

## Left out

- `main.py` (the interactive menu, YAML configuration, coloured logging) and `paradox/__init__.py` (re-exports) are not part of this model. The menu's range checks (partition 1..8, zone 1..192, records 1..32) are not preconditions: the model handles every integer the way the library does.
- Logging: every `logger` call and the hex strings `write` and `read` log. They have no effect on results.
- Port configuration: `serial.Serial(...)` with its baud rate, parity and the like is the abstract `Port.Open`. Failing to open is the faulty port, whose every read and write raises.
- Wall-clock time: the deadlines of `wait_for_response` and `monitor_events` are poll counts (500 intervals of 10 ms for 5 s). A fractional duration or timeout is not modelled, and the port's read timeout is kept but never elapses inside a read: a read returns what has arrived.
- `SerialConnection.flush_output` and the context manager `__enter__`/`__exit__`: the abstract port has no output buffer, and the context manager only calls `connect`/`disconnect`.
- `ParadoxPanel.parse_message` (paradox/panel.py:164-182): apart from a log line, it is exactly `Protocol.ParseMessage`, which the model proves directly.
- The generator mechanics of `monitor_events` and its `KeyboardInterrupt` handler: the loop is a function returning the events of a bounded horizon, the caller's choice of how long to keep iterating.
- `construct` Enum decoding: the product and source ids are kept as raw bytes, not as enum names (product codes are duplicated in the source enum). This hides a consequence, taken up under "## Findings": for the ten product ids the Enum names (0-5 and 21-24), `panel_info['product_id']` is the name, a `str`, so `data[1] = product_id` in `build_initialize_communication_mgsp` raises TypeError and the written login fails for every such panel. `Panel.Authenticate` models the intended login, which sends the product byte; `Panel.AuthenticateAsWritten` models the written one. Stream errors appear only as "input too short or a Const byte mismatched".
- Panel.EncodePassword: `int(.., 16)` is modelled for ASCII text only. The six ASCII characters it skips around the digits (tab, line feed, vertical tab, form feed, carriage return, space) and a leading sign are modelled. Non-ASCII decimal digits and non-ASCII whitespace, which Python also accepts, are treated as errors.
- Default arguments (`mode='arm'`, `address=0x0000`, `records=1`, `bytes_per_line=16`, `max_length=37`, `initial_timeout=None`, `source_id=0x01`, `user_id=0x00`, `timeout=5`, `duration=None`): every parameter is explicit. The defaults the library's own calls rely on are written at those calls: `ReadFrame(l, 37)` in the wait, source 1 and user 0 in the builders' callers, `ResponsePolls` for the 5-second timeout, and duration 0 for None.

## Findings

| source | as written | input that shows it | evidently intended | confidence | as-written member | corrected member |
|---|---|---|---|---|---|---|
| paradox/protocol.py:362 | `panel_info['product_id']` comes from `ProductIdEnum` (protocol.py:39-54), which decodes a named id to its name, a `str`; `data[1] = product_id` then raises TypeError, so `initialize_communication` (panel.py:134-141) fails before writing | the identity answer of an SP5500 (product id 21), with the default password "0000" | the login frame carries the product id byte, and the panel's 0x10 answer logs in | not executed | Panel.NamedProductLoginRaises | Panel.LoginAcceptedBy0x10 |
