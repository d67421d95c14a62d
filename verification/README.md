# A2S_INFO query client and display formatting, in Dafny

This project models the core of a small game-server monitor written in C:

- **the A2S_INFO client** (`a2s_query.c`, `a2s_query.h`). It sends the fixed
  25-byte request, answers at most one challenge by resending the request with
  the four challenge bytes, and decodes the binary reply into an `a2s_info_t`
  record. The record holds a protocol byte, four NUL-terminated strings read by
  the bounds-checked `read_string`, optional fixed-width fields with defaults,
  a version string and a status.
- **the status heuristic and its label.** "lobby" or "loading" in the
  lower-cased server name or map name decides the status.
- **the text formatting of `formatting.c`.** `format_uptime` writes an uptime
  in seconds in one of four layouts. `format_bytes` picks a size unit by
  thresholds.

The model is organised by module:

| module | file | models |
|---|---|---|
| `Wire` | `wire.dfy` | byte types, the request datagram, response markers, field capacities, the reading of a `char` array as a C string |
| `StringReader` | `string_reader.dfy` | `read_string`: a specification `ReadString` over the received bytes and the imperative reader over arrays with a `Cursor` for `int *offset`, proved to implement it |
| `Status` | `status.dfy` | `a2s_parse_server_status` (intended reading, and as written), `a2s_status_string` |
| `InfoDecoder` | `info_decoder.dfy` | the decode of `a2s_query_info` as functions over the received bytes, an encoder of records, and the round trip between them |
| `InfoRecordStore` | `info_record.dfy` | the `a2s_info_t` record as a class with its character arrays, filled in place field by field, proved to hold the record `DecodeBody` specifies |
| `QuerySession` | `query_session.dfy` | the socket as an open/closed flag with a log of datagrams sent; `a2s_query_init`, `a2s_query_info`, `a2s_query_cleanup` with the network's answers as parameters |
| `Formatting` | `formatting.dfy` | `format_uptime` in full, `format_bytes` for its thresholds and its kilobyte text |

Send and receive outcomes, the socket setup and the receive timeout are
parameters (`sendOk`, `Reception`, `setupOk`). Everything else is modelled
from the code, with one exception: the decoder derives the status with the
corrected classifier `Status.Classify`. The code at a2s_query.c:290 calls a
classifier that can read stale stack bytes; that version is modelled
separately as `Status.ClassifyAsWritten` (see "## Findings").

Three behaviours of the code matter for the model:

- When `read_string` fills its destination before a terminator, the cursor
  stays on the first byte not copied (a2s_query.c:74-82), so the next field
  starts inside the truncated string (`ReadStringFullDestination`,
  `LongNameContinuesIntoMap`).
- The reply after a challenge is never checked for the `FF FF FF FF` header.
  Its type byte is read from the reused buffer. A second datagram shorter than
  five bytes leaves the challenge type 0x41 of the first reply there, so the
  decode fails (`SecondReplyHeaderIgnored`, `SecondReplyWithoutHeader`,
  `DecodeSecond`).
- The copy of `read_string` in `tests/test_string_parsing.c` has no bounds
  check and returns 0 for a cursor at the bound. The code in `a2s_query.c`
  returns -1, and the model follows it (`ReadStringRejectsCursor`).

## Model

| member | source | states |
|---|---|---|
| Wire.InfoRequestLayout | a2s_query.c:15-22 | the request is 25 bytes: the header FF FF FF FF, the type 0x54, and a NUL-terminated payload string |
| Wire.CStr | a2s_query.h:23-39 | a `char` array read as a C string is its longest NUL-free prefix, ending at the array's end or at a NUL |
| Wire.CStrOfUnterminated | a2s_query.c:72-74 | bytes without a NUL, filling their array, read back whole as a C string |
| Wire.CStrOfTerminated | a2s_query.c:76-77 | bytes followed by the terminator the reader writes read back as exactly those bytes |
| StringReader.CopyLength | a2s_query.c:72-74 | the copy loop takes at most `dest_size - 1` NUL-free bytes within the scan bound, and stops at the first NUL, the bound or full capacity |
| StringReader.CopyLengthIsFirstStop | a2s_query.c:72-74 | any count that meets the loop's stop conditions is the count the loop copies |
| StringReader.CopyLengthLocal | a2s_query.c:72-74 | the loop reads no byte outside `[offset, max_len)` |
| StringReader.ReadString | a2s_query.c:64-85 | fails exactly when the cursor is negative or at or past `max_len`; otherwise the text is the NUL-free source bytes at the cursor, at most `dest_size - 1` long, ended by NUL, bound or capacity; the cursor skips one terminator exactly when a NUL was found within the bound |
| StringReader.ReadStringCursorBounds | a2s_query.c:72-82 | after a successful read the cursor lies between its start and `max_len` |
| StringReader.ReadStringProgress | a2s_query.c:72-82 | with room for one byte a successful read always moves the cursor, so repeated reads cannot stall |
| StringReader.ReadStringOfTerminated | a2s_query.c:72-82 | a terminated string that fits is read whole and the cursor lands just past its NUL |
| StringReader.ReadStringStopsAt | a2s_query.c:72-82 | the result of a read whose loop stopped after `k` bytes |
| StringReader.ReadStringUnterminated | a2s_query.c:72-82 | with no NUL before the bound, the reader takes every byte up to the bound and leaves the cursor on it |
| StringReader.ReadStringFullDestination | a2s_query.c:72-82 | when the destination fills first, the cursor stops on the first uncopied byte, which is not a terminator |
| StringReader.ReadStringLocal | a2s_query.c:64-85 | a read depends only on the bytes in `[offset, max_len)` |
| StringReader.ReadStringRejectsCursor | tests/test_security.c:65-95 | a negative cursor, one past the buffer and one exactly at the bound all fail |
| StringReader.ReadStringNoNulls | tests/test_security.c:97-111 | 100 bytes without a NUL give 63 bytes and cursor 63 in a 64-byte destination |
| StringReader.ReadStringTruncatedPacket | tests/test_security.c:113-131 | "ServerName\0Map\0" yields its two strings and then an empty third one |
| StringReader.ReadStringZeroLength | tests/test_security.c:133-143 | "\0\0\0" (4 bytes) gives an empty string and cursor 1 |
| StringReader.ReadStringMaxLength | tests/test_security.c:145-159 | 255 bytes and a NUL give length 255 and cursor 256 |
| StringReader.ReadStringNormal | tests/test_string_parsing.c:25-35 | "Hello\0World\0" gives "Hello" and cursor 6 |
| StringReader.ReadStringMultiple | tests/test_string_parsing.c:37-50 | "First\0Second\0Third\0" gives its three strings in turn |
| StringReader.ReadStringNoTerminator | tests/test_string_parsing.c:52-63 | six bytes without a NUL give all six and cursor 6 |
| StringReader.ReadStringTruncation | tests/test_string_parsing.c:65-74 | a long string into a 10-byte destination gives its first 9 bytes |
| StringReader.ReadStringEmpty | tests/test_string_parsing.c:76-86 | "\0Next\0" gives an empty string and cursor 1 |
| StringReader.ReadStringBoundary | tests/test_string_parsing.c:88-99 | "Test" scanned to 4 bytes gives all four and cursor 4 |
| StringReader.ReadStringInto | a2s_query.c:64-85 | -1 exactly for a null pointer or a cursor out of range, with `dest[0]` cleared and the cursor unchanged; otherwise the length copied, the destination holding the text and a NUL and nothing else changed, the cursor where `ReadString` puts it |
| StringReader.CopyString | a2s_query.c:72-84 | the copy loop over arrays produces exactly the `ReadString` result |
| Status.Take | a2s_query.c:97-98 | the copy bound: at most `cap - 1` bytes, a prefix of the source, all of it when it is shorter |
| Status.Lower | a2s_query.c:98-100 | the lower-case copy has the length of its source and each byte is `tolower` of the source byte |
| Status.ContainsMeansOccurs | a2s_query.c:108 | the left-to-right `strstr` scan finds a word exactly when it occurs at some index |
| Status.ContainsLowerCopy | a2s_query.c:97-110 | searching the lower-case copy is a case-insensitive search of the first `cap - 1` bytes of the C string |
| Status.Classify | a2s_query.c:87-118 | the corrected classifier: the status is never Unknown (its meaning is `ClassifyMeaning`) |
| Status.ClassifyMeaning | a2s_query.c:87-118 | the status is never Unknown; Lobby exactly when "lobby", ignoring case, is in the name's first 255 or the map's first 127 bytes; Loading exactly when "loading" is there and "lobby" is not; HostOnline exactly when neither is |
| Status.ClassifyOfCStr | a2s_query.c:87-118 | the classifier depends only on the C-string contents of its arguments |
| Status.LowerCopyOfShort | a2s_query.c:97-104 | a C string that fits the lower-case array is copied whole |
| Status.NotContainsMissingByte | a2s_query.c:108-114 | a word with a byte the text lacks is not found |
| Status.ContainsAt | a2s_query.c:108-114 | a word occurring at a known index is found |
| Status.LowerFinds | a2s_query.c:97-114 | a case-insensitive match is found by the search of the lower-cased text |
| Status.LowerWithoutB | a2s_query.c:108-110 | text with no 'b' in either case never contains "lobby" |
| Status.ClassifyLobbyFound | a2s_query.c:108-110 | "lobby" in any case in a short name or map gives Lobby, whatever else the texts say |
| Status.ClassifyLoadingFound | a2s_query.c:112-114 | "loading" in a short name or map with no 'b' anywhere gives Loading |
| Status.ClassifyLobbyName | tests/test_a2s_parsing.c:20-23 | "My Lobby Server" with an empty map is Lobby |
| Status.ClassifyLobbyMap | tests/test_a2s_parsing.c:25-28 | an empty name with "lobby_map" is Lobby |
| Status.ClassifyLoadingName | tests/test_a2s_parsing.c:30-33 | "Loading..." with an empty map is Loading |
| Status.ClassifyLoadingMap | tests/test_a2s_parsing.c:35-38 | an empty name with "loading_screen" is Loading |
| Status.ClassifyHostOnline | tests/test_a2s_parsing.c:40-43 | "Guntshrouded" on "main_map" is HostOnline |
| Status.ClassifyLobbyUpperCase | tests/test_a2s_parsing.c:45-48 | "LOBBY SERVER" is Lobby: matching ignores case |
| Status.ClassifyWithoutLetterL | a2s_query.c:108-117 | texts without 'l' or 'L' leave the host online, since both words start with 'l' |
| Status.StatusLabel | a2s_query.c:120-131 | one of the four labels, "Unknown" exactly for a value outside 1-3 |
| Status.StatusLabelRoundTrip | a2s_query.c:120-131 | each status has its own label and reads back from it; any value outside 1-3 is labelled "Unknown" |
| Status.LowerBufferAsWritten | a2s_query.c:94-104 | the lower-case array as the code leaves it has exactly `cap` bytes |
| Status.ClassifyAsWritten | a2s_query.c:94-117 | the classifier as written, searching the lower-case arrays up to their first NUL, stale bytes included; never Unknown |
| Status.ClassifyAsWrittenReadsStaleBytes | a2s_query.c:94-104 | with an empty name and map over an array still holding "lobby", the code reports Lobby where the intended reading gives HostOnline |
| Status.LowerCopyNoNul | a2s_query.c:97-100 | the lower-case copy holds no NUL and at most `cap - 1` bytes |
| Status.LowerBufferReadsCopy | a2s_query.c:97-104 | when the stale byte after the copy is NUL, `strstr` sees exactly the copy |
| Status.ClassifyAsWrittenAgrees | a2s_query.c:87-118 | under that condition the code as written agrees with the intended classifier |
| InfoDecoder.HasHeader | a2s_query.c:160-164 | a reply has a header exactly when it has at least 5 bytes and starts with the request's four header bytes |
| InfoDecoder.ChallengeRequest | a2s_query.c:174-181 | the retry is 29 bytes: the 25-byte request then bytes 5-8 of the challenge reply |
| InfoDecoder.ReadStrings | a2s_query.c:217-229 | when the four reads succeed, the strings are NUL-free and within their capacities, and the cursor is past byte 6 and within the datagram |
| InfoDecoder.AppIdField | a2s_query.c:231-237 | with two bytes left the cursor moves by 2 and the app id's low and high bytes are those two bytes; otherwise 0 and the cursor stays |
| InfoDecoder.PlayerCounts | a2s_query.c:239-246 | with two bytes left both counts are read and the cursor moves by 2; otherwise both are 0 and the cursor stays |
| InfoDecoder.OptionalByte | a2s_query.c:248-281 | with a byte left it is read and the cursor moves by 1; otherwise the default and the cursor stays |
| InfoDecoder.ReadTrailer | a2s_query.c:231-287 | the app id is read when 2 bytes remain and the player counts when 4 do, else each defaults to 0; from where they end, bots, server type, environment, visibility and VAC each take the next byte if one remains, else their own default (0, 'u', 'u', 0, 0); the version follows them, empty when fewer bytes remain, and is NUL-free and shorter than 32 bytes |
| InfoDecoder.VersionText | a2s_query.c:283-287 | the version is NUL-free and shorter than 32 bytes, empty when it cannot be read |
| InfoDecoder.DecodeBody | a2s_query.c:199-290 | succeeds exactly for type 0x49, at least 10 bytes and four readable strings; the protocol is byte 5 and the status is classified from name and map |
| InfoDecoder.DecodeFirst | a2s_query.c:160-200 | no header is an error; a retry exactly for a challenge of at least 9 bytes, carrying the retry request; a record exactly when a headed reply decodes, and then it is the payload's decode |
| InfoDecoder.DecodeSecond | a2s_query.c:189-200 | the reply to the retry never asks for another retry; a record needs at least 10 bytes and type 0x49; from 5 bytes on, success is exactly the payload decode, and the record is that decode |
| InfoDecoder.TrailerAbsent | a2s_query.c:231-287 | with nothing after the strings every trailing field takes its default ('u' for server type and environment) |
| InfoDecoder.TrailerOneByte | a2s_query.c:231-253 | a single trailing byte is too short for app id and player counts, so it is read as the bot count |
| InfoDecoder.TrailerTwoBytes | a2s_query.c:231-246 | two trailing bytes are the little-endian app id |
| InfoDecoder.TrailerComplete | a2s_query.c:231-287 | nine trailing bytes or more give every fixed field in wire order, then the version |
| InfoDecoder.ReadFront | a2s_query.c:217-229 | a terminated string at the cursor is read whole, leaving the cursor on what follows |
| InfoDecoder.ReadStringsChain | a2s_query.c:217-229 | the four mandatory reads chain, each starting where the previous one left the cursor |
| InfoDecoder.EncodedAfterHeader | a2s_query.c:215-217 | after the header, type and protocol byte an encoded record is its four terminated strings then its trailer |
| InfoDecoder.FourStrings | a2s_query.c:217-229 | four terminated strings from offset 6 read back in turn |
| InfoDecoder.EncodedStrings | a2s_query.c:217-229 | the strings of an encoded record read back as written, the trailer starting after them |
| InfoDecoder.PlacedTrailer | a2s_query.c:231-287 | nine fixed bytes then a terminated version read back field by field |
| InfoDecoder.EncodedTrailer | a2s_query.c:231-287 | the trailing fields of an encoded record read back as written |
| InfoDecoder.DecodeBodyOf | a2s_query.c:211-290 | a decode is the protocol byte, the four strings, the trailing fields and the classified status |
| InfoDecoder.EncodedHeader | a2s_query.c:160-200 | an encoded record carries the header, type 0x49 and its protocol byte |
| InfoDecoder.EncodedBody | a2s_query.c:199-290 | the payload of an encoded well-formed record decodes to that record |
| InfoDecoder.DecodeEncode | a2s_query.c:160-290 | every well-formed record, encoded, decodes back to itself in one round |
| InfoDecoder.DecodeFirstErrors | a2s_query.c:160-229 | each rejection in the order the code checks: header, short challenge, other type, under 10 bytes, unreadable string |
| InfoDecoder.SecondChallengeFails | a2s_query.c:196-202 | a second challenge fails instead of starting another round |
| InfoDecoder.DecodeBodyWellFormed | a2s_query.c:199-290 | whatever is decoded is well formed, with a status other than Unknown |
| InfoDecoder.DecodeFirstWellFormed | a2s_query.c:160-290 | the record of a successful first decode is well formed: the converse of the round trip |
| InfoDecoder.TrailerLocal | a2s_query.c:231-287 | the trailing fields depend only on the bytes from the cursor to the end of the datagram |
| InfoDecoder.AgreeOnFrom | a2s_query.c:231-287 | byte agreement from a cursor holds from any later cursor |
| InfoDecoder.FixedFieldsLocal | a2s_query.c:231-281 | the fixed-width fields read the same from two buffers that agree from the cursor on |
| InfoDecoder.DecodeBodyLocal | a2s_query.c:199-290 | the payload decode reads only bytes 5 to `received`: neither the header nor stale bytes beyond the datagram |
| InfoDecoder.SecondReplyHeaderIgnored | a2s_query.c:189-200 | the header of the reply to the retry does not change the outcome |
| InfoDecoder.SecondReplyWithoutHeader | a2s_query.c:160-200 | an encoded record with a zeroed header is rejected first but accepted after a challenge |
| InfoDecoder.LongNameContinuesIntoMap | a2s_query.c:217-222 | a name of 256 or more non-NUL bytes is cut to 255 and the map is read from byte 261, inside the name |
| InfoRecordStore.Info.constructor | a2s_query.h:23-39 | fresh arrays of capacities 256, 128, 64, 64 and 32 |
| InfoRecordStore.ReadField | a2s_query.c:218-229 | one mandatory read into a field array: success exactly as `ReadString`, the array then holding its text as a C string |
| InfoRecordStore.ReadStringsInto | a2s_query.c:217-229 | the four arrays and the cursor hold what `ReadStrings` specifies, success exactly when it succeeds |
| InfoRecordStore.AppIdInto | a2s_query.c:231-237 | the app id and cursor as `AppIdField` specifies |
| InfoRecordStore.PlayerCountsInto | a2s_query.c:239-246 | both player counts and the cursor as `PlayerCounts` specifies |
| InfoRecordStore.OptionalField | a2s_query.c:248-281 | one optional byte or its default, and the cursor, as `OptionalByte` specifies |
| InfoRecordStore.VersionInto | a2s_query.c:283-287 | the version array holds `VersionText` as a C string, cleared when the read fails |
| InfoRecordStore.ReadTrailerInto | a2s_query.c:231-287 | the trailing fields of the record equal `ReadTrailer`; protocol and status untouched |
| InfoRecordStore.SetStatus | a2s_query.c:289-290 | the status is classified from the name and map arrays as C strings; nothing else changes |
| InfoRecordStore.TrailerAndStatusInto | a2s_query.c:231-290 | after the strings, the record holds the trailing fields and the classified status |
| InfoRecordStore.DecodeFields | a2s_query.c:211-290 | success exactly when `DecodeBody` succeeds, and the record then reads as its value |
| InfoRecordStore.DecodeInto | a2s_query.c:199-290 | 0 or -1; 0 exactly when `DecodeBody` accepts the payload, and the record then reads as its value |
| QuerySession.Received | a2s_query.c:146-151 | `recvfrom` keeps a prefix of the datagram: all of it up to 4096 bytes, exactly 4096 bytes of a longer one |
| QuerySession.Exchange | a2s_query.c:133-293 | nothing is sent exactly when the first send fails; a second datagram goes out exactly after a challenge whose retry send succeeds; a record returned after one datagram is the first reply's decode, after two the second reply's decode |
| QuerySession.ExchangeCodes | a2s_query.c:133-293 | the result is 0, -1 or -2; 0 exactly with a record; -2 exactly for a timeout on the first receive |
| QuerySession.ExchangeSends | a2s_query.c:139-187 | at most two datagrams: the request first, then after a challenge the request with the four challenge bytes |
| QuerySession.ExchangeWellFormed | a2s_query.c:160-290 | a record from either reply is well formed with a known status |
| QuerySession.ChallengeReplyRetries | a2s_query.c:166-181 | a challenge reply carrying four bytes asks for the request followed by exactly those bytes |
| QuerySession.SecondReplyOfEncoded | a2s_query.c:189-290 | a second reply holding an encoded well-formed record decodes to that record |
| QuerySession.ExchangeAfterChallenge | a2s_query.c:139-290 | a server answering first with a challenge and then with its encoded record is sent the request and then the request with the challenge bytes, and the query yields that record |
| QuerySession.ExchangeOfEncoded | a2s_query.c:139-290 | a server answering with an encoded record directly is queried with a single request and yields that record |
| QuerySession.Receive | a2s_query.c:150-151 | the datagram overwrites the buffer's front and the rest keeps its old bytes |
| QuerySession.Session.constructor | a2s_query.c:12 | the session starts closed with nothing sent |
| QuerySession.Session.Init | a2s_query.c:24-60 | an open session stays open with 0; a closed one opens exactly when setup succeeds, returning 0, else -1 |
| QuerySession.Session.Cleanup | a2s_query.c:295-300 | the session is closed afterwards, whatever its state |
| QuerySession.Session.QueryInfo | a2s_query.c:133-293 | -1 on a closed session; otherwise the code and datagrams of `Exchange`, and on success the record reads as `Exchange`'s |
| QuerySession.FirstReplyInto | a2s_query.c:160-181 | a retry exactly for a challenge, with its request; otherwise the decode of the first reply into the record |
| QuerySession.DecodeSecondInto | a2s_query.c:189-200 | 0 exactly when `DecodeSecond` succeeds, the record then reading as its value, including the stale type byte of a short datagram |
| Formatting.DigitChar | formatting.c:26 | each digit value maps to its character |
| Formatting.Decimal | formatting.c:26 | `%lu` gives at least one digit and no leading zero |
| Formatting.DigitsValueAppend | formatting.c:26 | appending a digit multiplies the value by ten and adds the digit |
| Formatting.DecimalValue | formatting.c:26 | reading the digits of `n` back gives `n` |
| Formatting.DecimalLength | formatting.c:26 | a number below 10^k has at most k digits |
| Formatting.Power10Values | formatting.c:26-27 | the powers of ten behind the digit-count bounds: 10² for `%02lu`, 10⁴ and 10¹⁵ for the kilobyte and uptime text lengths |
| Formatting.Pad2 | formatting.c:26-27 | `%02lu` gives at least two digits, exactly two below 100 |
| Formatting.Pad2Value | formatting.c:26-27 | zero padding does not change the value read back |
| Formatting.Split | formatting.c:20-23 | hours below 24, minutes and seconds below 60, and together they add back to the seconds |
| Formatting.SplitArithmetic | formatting.c:20-23 | the nested remainders of the code recompose the total |
| Formatting.HourWithinDay | formatting.c:21-22 | the remainder modulo an hour is the same within the day |
| Formatting.MinuteWithinHour | formatting.c:22-23 | the remainder modulo a minute is the same within the hour |
| Formatting.SplitUnique | formatting.c:20-23 | components in their ranges that add up to the total are the ones the code computes |
| Formatting.Snprintf | formatting.c:26 | nothing for size 0, else a prefix of the text of at most size - 1 bytes, cut only when the text is longer |
| Formatting.FormatUptime | formatting.c:19-36 | a prefix of the uptime text, the whole text in any buffer of 25 bytes or more |
| Formatting.ScanDigits | formatting.c:19-36 | the reading parser builds the value of a run of digits |
| Formatting.ScanField | formatting.c:19-36 | a number and its unit letter add the number times the unit to the total |
| Formatting.ScanSpacedField | formatting.c:19-36 | the same for a number, unit and space |
| Formatting.UptimeRoundTrip | formatting.c:19-36 | reading the text back gives the seconds, with the seconds dropped from a day or more |
| Formatting.DaysRoundTrip | formatting.c:25-27 | the days layout reads back as days, hours and minutes |
| Formatting.HoursRoundTrip | formatting.c:28-30 | the hours layout reads back as hours, minutes and seconds |
| Formatting.MinutesRoundTrip | formatting.c:31-32 | the minutes layout reads back as minutes and seconds |
| Formatting.UptimeText | formatting.c:25-35 | the text ends in 'm' exactly from a day on (seconds dropped), else in 's' |
| Formatting.UptimeLayout | formatting.c:25-35 | the layout is chosen by the first non-zero component: days, hours, minutes, else seconds alone |
| Formatting.UptimeSecondsExamples | tests/test_formatting.c:34-62 | 0 and 45 seconds read "0s" and "45s" |
| Formatting.UptimeMinutesExample | tests/test_formatting.c:40-44 | 125 seconds read "2m 05s" |
| Formatting.UptimeHoursExample | tests/test_formatting.c:46-50 | 7265 seconds read "2h 01m 05s" |
| Formatting.UptimeDaysExample | tests/test_formatting.c:52-56 | 90125 seconds read "1d 01h 02m" |
| Formatting.UptimeTextLength | formatting.c:19-36 | no uptime text of a 64-bit count is longer than 24 characters |
| Formatting.UnitFor | formatting.c:10-16 | KB exactly below 1024, MB exactly from 1024 to below 1024², GB exactly from 1024² on |
| Formatting.UnitMonotone | formatting.c:10-16 | a larger size never gets a smaller unit |
| Formatting.FormatBytes | formatting.c:9-17 | the kilobyte text, megabytes or gigabytes exactly as the thresholds choose |
| Formatting.KilobytesText | formatting.c:10-11 | a size below 1024 KB is written whole into a 32-byte buffer as digits and " KB", and the digits read back as the size |
| Formatting.BytesExamples | tests/test_formatting.c:10-32 | 512 reads "512 KB"; 1536 is in megabytes; 2097152 and 16777216 in gigabytes |

## Left out

- Sockets, `sendto`, `recvfrom`, `setsockopt`, `inet_pton` and `errno` are not modelled as system calls. Their outcomes are parameters: `sendOk`, `retrySendOk`, `Reception` and `setupOk`. The host, port and two-second timeout are not represented.
- `perror` output in `a2s_query_init` is left out (I/O).
- Formatting.FormatBytes: the megabyte and gigabyte texts (`%.1f MB`, `%.2f GB`) use floating point; the model states which unit is printed, not the digits.
- InfoDecoder.DecodeBody, InfoRecordStore.SetStatus: the status is derived with the corrected `Status.Classify`, not with the code's classifier, which can read stale stack bytes; the code's version is `Status.ClassifyAsWritten` (see "## Findings").
- InfoRecordStore.DecodeInto: the fields `a2s_query_info` writes before a failing read stay unspecified. The model states the record only on success, as callers may rely only on that.
- The check `offset >= received` at a2s_query.c:212 can never fire after the check `received < 10`, so the model omits it.
- `unsigned long` is taken to be 64 bits wide, so the `%lu` casts in formatting.c lose nothing.
- StringReader.ReadStringInto: the `buffer`, `dest` and `offset` null checks are modelled by nullable array and cursor types; C pointer arithmetic is not.
- The test files' own copies of `read_string` are not modelled; the model follows the one in a2s_query.c.
- main.c, system_monitor.c and process_monitor.c (the ncurses display and the process and system statistics) are not part of this model.
- Split (multi-packet) A2S replies and the player and rules queries are not handled by the code, and are not modelled.

## Findings

| source | as written | input that shows it | evidently intended | confidence | as-written member | corrected member |
|---|---|---|---|---|---|---|
| a2s_query.c:94-104 | the lower-case copies `name_lower` and `map_lower` are written only up to the copied length and at the last index; the byte after the copy is never set to NUL, so `strstr` reads uninitialised stack bytes | an empty name and map while the stack bytes of `name_lower` still hold "lobby" followed by zeros: the code returns Lobby | the copy is NUL-terminated right after the copied bytes, so the search covers only the lower-cased text and an empty name and map give HostOnline | not executed | Status.ClassifyAsWrittenReadsStaleBytes | Status.ClassifyMeaning |
