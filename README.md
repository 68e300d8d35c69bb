# apigpio in Dafny

A model of the client side of the pigpio socket protocol as implemented by
`apigpio`, an asyncio client for the pigpio GPIO daemon. It covers:

- the word layout of requests and responses and the two's-complement
  reading of result words (`u2i`);
- the `_u2i`/`error_text` error mapping over the `_errors` table;
- the fixed and extended command frames, built from the 16-byte header
  `cmd, p1, p2, p3` and the extents;
- the payload-carrying wrappers: `store_script`, `run_script`,
  `script_status`, `gpio_trigger`, `wave_add_generic`, `wave_add_serial`,
  `_rxbuf` and `i2c_read_i2c_block_data`;
- the notification side: the 12-byte records the daemon streams after NOIB,
  the per-record step of the reader loop that decides which callbacks are
  called with which level, and the callback registry. The registry keeps the
  monitored-GPIO mask `monitor`, and `append`/`remove` send that mask with NB.

Modules, in dependency order:

- `Wire`: bytes and little-endian words. It models `struct.pack('I')`,
  `struct.unpack('HHII')` and `u2i`.
- `Errors`: the exception kinds, the error table, `error_text` and `_u2i`.
- `Framing`: opcodes, extents, headers, request frames, responses and the
  requests the wrappers build.
- `Channel`: a socket as a log of bytes sent plus a stream of bytes pending,
  and the `Pi` class whose methods are the command operations.
- `Bits`: Python's `<<`, `|`, `&` and `^` on non-negative integers, and the
  per-bit predicate `Has` that states their meaning.
- `Notify`: records, callbacks, the registry mask, the record step, and the
  classes `CallbackEntry` (`_callback_ADT`), `CallbackHandler`
  (`_callback_handler`) and `Callback`.

A socket is modelled by the bytes written to it, `sent`, and the bytes the
daemon has sent that are not yet read, `incoming`. `sock_recv(n)` delivers
`min(n, len(incoming))` bytes. A response cut short is therefore the stream
ending, and `struct.unpack` then fails (`StructError`). Exceptions
are `Result` values: `ApigpioError(text)`, `StructError`,
`UnicodeEncodeError`, and `AttributeError`, which `_rxbuf` and
`script_status` raise when their first receive returns fewer bytes than
asked: they call `extend` on the immutable `bytes` that `sock_recv`
returns.

Where the text of the code and its description differ, the model follows the
code:

- `_pigpio_aio_command_ext` takes `p3` from its caller and never computes
  it. The lemmas `*Framed` prove that each modelled wrapper passes the exact
  extent length.
- `append` and `remove` send NB through the command socket of `Pi`
  (`self.pi._pigpio_aio_command`), not through the notification socket.

The constants of pigpio's `ctes` module come from pigpio itself:
- `RISING_EDGE = 0`, `FALLING_EDGE = 1`, `EITHER_EDGE = 2`, `TIMEOUT = 2`;
- `NTFY_FLAGS_WDOG = 1 << 5`, `NTFY_FLAGS_ALIVE = 1 << 6`, `NTFY_FLAGS_GPIO = 31`;
- the error codes -1 to -121.

## Model

| member | source | states |
|---|---|---|
| Wire.WordRoundTrip | apigpio/apigpio.py:459 | reading back a packed unsigned word gives the word |
| Wire.Word | apigpio/apigpio.py:459 | `struct.pack('I', x)`: four bytes, least significant first; read back by WordRoundTrip and injective by WordInjective |
| Wire.WordAt | apigpio/apigpio.py:513 | the `I` field unpacked at an offset; WordAtRoundTrip makes it the inverse of Word |
| Wire.Half | apigpio/apigpio.py:408 | `struct.pack('H', x)`: two bytes, least significant first; read back by HalfRoundTrip |
| Wire.HalfAt | apigpio/apigpio.py:408 | the `H` field unpacked at an offset; HalfRoundTrip makes it the inverse of Half |
| Wire.Words | apigpio/apigpio.py:626-627 | the words packed one after another, 4 bytes each; WordsAt and WordsAppend give their layout |
| Wire.WordAtRoundTrip | apigpio/apigpio.py:513 | every 4-byte group is the packing of exactly the word read from it |
| Wire.WordInjective | apigpio/apigpio.py:459 | packing a word is injective |
| Wire.HalfRoundTrip | apigpio/apigpio.py:408 | reading back a packed half-word gives the half-word |
| Wire.WordsAt | apigpio/apigpio.py:626-627 | word k of a packed list sits at byte offset 4k |
| Wire.WordsAppend | apigpio/apigpio.py:626-627 | packing a concatenation concatenates the packings |
| Wire.U2i | apigpio/apigpio.py:294-312 | the result is congruent to the input modulo 2^32, lies in [-2^31, 2^31), and is non-negative exactly for inputs below 2^31 |
| Wire.U2iUnique | apigpio/apigpio.py:294-312 | only one signed 32-bit value is congruent to a word, so U2i's contract determines it |
| Wire.U2iI2u | apigpio/apigpio.py:294-312 | U2i and I2u are mutually inverse bijections between unsigned and signed 32-bit values |
| Wire.U2iExamples | apigpio/apigpio.py:300-304 | the documented examples: 4294967272 gives -24 and 37 gives 37 |
| Errors.ErrorEntry | apigpio/apigpio.py:132-252 | the `_errors` table as a partial map from code to description; what it holds for particular codes is ErrorTextExamples and ErrorTextMissingCodes |
| Errors.UnknownErrorText | apigpio/apigpio.py:292 | the generic text for a code outside the table; distinct codes get distinct texts (UnknownErrorTextInjective) |
| Errors.IntString | apigpio/apigpio.py:292 | `str(n)` of the format: a sign for negative codes, then the decimal digits; NatStringRoundTrip and IntStringInjective give its meaning |
| Errors.ErrorText | apigpio/apigpio.py:281-292 | a code with a non-empty table entry gets that entry; a code outside the table gets "unknown error (n)" |
| Errors.NatStringRoundTrip | apigpio/apigpio.py:292 | the decimal digits printed for a number read back as that number |
| Errors.IntStringInjective | apigpio/apigpio.py:292 | distinct integers print differently |
| Errors.UnknownErrorTextInjective | apigpio/apigpio.py:292 | two codes outside the table never share a text |
| Errors.ErrorTextExamples | apigpio/apigpio.py:132-252 | the documented example -5 gives "level not 0-1", and the last entry -121 gives its text |
| Errors.ErrorTextMissingCodes | apigpio/apigpio.py:132-252 | the daemon codes -39 and -40, absent from the table, get "unknown error (-39)" and "unknown error (-40)" |
| Errors.CheckedU2i | apigpio/apigpio.py:315-325 | `_u2i` fails exactly when `exceptions` is set and the signed value is negative, and then raises ApigpioError with `error_text` of that value; otherwise it returns the signed value |
| Errors.Checked | apigpio/apigpio.py:315-325 | an error raised while exchanging frames propagates unchanged; a result word goes through `_u2i` |
| Errors.CheckedExamples | apigpio/apigpio.py:315-325 | a non-negative reply passes unchanged; -5 raises "level not 0-1" with exceptions on and is returned as -5 with them off |
| Framing.Latin1 | apigpio/apigpio.py:534-535 | a string encodes exactly when every character is below U+0100, and then to one byte per character equal to its code; otherwise UnicodeEncodeError |
| Framing.EncodeExtent | apigpio/apigpio.py:533-537 | an encoded extent has one byte per unit of its `len`; the only failure is UnicodeEncodeError |
| Framing.EncodeExtents | apigpio/apigpio.py:533-537 | the extents encode exactly when each one does, and then to as many bytes as their lengths add up to; the only failure is UnicodeEncodeError |
| Framing.EncodeBinaryExtents | apigpio/apigpio.py:536-537 | binary extents always encode, to their bytes concatenated in list order |
| Framing.Header | apigpio/apigpio.py:532 | the header `struct.pack('IIII', cmd, p1, p2, p3)` is 16 bytes; its fields read back by HeaderFields |
| Framing.HeaderFields | apigpio/apigpio.py:532 | the four header words read back from offsets 0, 4, 8 and 12, whatever follows |
| Framing.CommandFrame | apigpio/apigpio.py:510 | the fixed request is 16 bytes holding `cmd, p1, p2, 0` |
| Framing.RequestFrame | apigpio/apigpio.py:530-537 | an extended request fails with StructError exactly when p3 is 2^32 or more, fails with UnicodeEncodeError when an extent cannot be encoded, and otherwise is the header followed by the encoded extents |
| Framing.FramedRequestLayout | apigpio/apigpio.py:516-528 | for a request whose p3 is its extent length, the frame is 16 + p3 bytes long and its header fields read back as sent |
| Framing.ParseResponse | apigpio/apigpio.py:513 | unpacking succeeds exactly on 16 bytes; any other length is StructError |
| Framing.ResponseResult | apigpio/apigpio.py:513 | the first 12 bytes of a response are ignored and the last four are the result |
| Framing.PulseBytesAt | apigpio/apigpio.py:1461-1462 | pulse k occupies bytes 12k to 12k+12 as `on, off, delay` |
| Framing.PulseBytes | apigpio/apigpio.py:1460-1462 | the pulses packed `on, off, delay`, 12 bytes each; PulseBytesAt gives the layout |
| Framing.StoreScriptRequest | apigpio/apigpio.py:596-602 | the request `store_script` builds, or none for an empty script; its p3 is proved by StoreScriptFramed |
| Framing.RunScriptRequest | apigpio/apigpio.py:624-634 | the request `run_script` builds, with or without a parameter extent; proved by RunScriptFramed and RunScriptLayout |
| Framing.GpioTriggerRequest | apigpio/apigpio.py:874-876 | the request `gpio_trigger` builds; proved by GpioTriggerFramed |
| Framing.WaveAddGenericRequest | apigpio/apigpio.py:1459-1468 | the request `wave_add_generic` builds, or none for no pulses; proved by WaveAddGenericFramed and WaveAddGenericLayout |
| Framing.WaveAddSerialRequest | apigpio/apigpio.py:1520-1526 | the request `wave_add_serial` builds, or none for empty data; proved by WaveAddSerialFramed and WaveAddSerialLayout |
| Framing.I2cReadBlockRequest | apigpio/apigpio.py:1986-1989 | the request `i2c_read_i2c_block_data` builds; proved by I2cReadBlockFramed |
| Framing.StoreScriptFramed | apigpio/apigpio.py:596-602 | `store_script` sends a request exactly for a non-empty script, and its p3 is the script's length |
| Framing.RunScriptFramed | apigpio/apigpio.py:624-634 | `run_script` declares in p3 exactly the bytes of its extents: 4 per parameter, or 0 with no extent |
| Framing.GpioTriggerFramed | apigpio/apigpio.py:874-876 | `gpio_trigger` declares p3 = 4, the length of its single extent |
| Framing.WaveAddGenericFramed | apigpio/apigpio.py:1459-1468 | `wave_add_generic` sends a request exactly for a non-empty pulse list, and its p3 is 12 bytes per pulse |
| Framing.WaveAddSerialFramed | apigpio/apigpio.py:1520-1526 | `wave_add_serial` sends a request exactly for non-empty data, and its p3 is the data's length plus 12 |
| Framing.I2cReadBlockFramed | apigpio/apigpio.py:1988-1989 | `i2c_read_i2c_block_data` declares p3 = 4, the length of its single extent |
| Framing.SingleBinaryFrame | apigpio/apigpio.py:530-537 | a request with one binary extent is framed as the header followed by that extent's bytes |
| Framing.WordAfterHeader | apigpio/apigpio.py:532-537 | a word of the extent bytes is found 16 bytes further into the frame |
| Framing.RunScriptNoParams | apigpio/apigpio.py:630-634 | without parameters, `run_script` sends the bare header with p3 = 0 |
| Framing.RunScriptLayout | apigpio/apigpio.py:624-634 | with parameters, the frame is 16 + 4n bytes and parameter k is the word at 16 + 4k |
| Framing.WaveAddGenericLayout | apigpio/apigpio.py:1459-1468 | the frame is 16 + 12n bytes and pulse k sits at 16 + 12k as `on, off, delay` |
| Framing.TwoExtents | apigpio/apigpio.py:533-537 | a binary extent followed by another extent encodes as the first one's bytes followed by the second's encoding |
| Framing.WaveAddSerialLayout | apigpio/apigpio.py:1520-1526 | the frame is 28 + len(data) bytes: `bb_bits, bb_stop, offset` at 16, 20 and 24, then the encoded data |
| Framing.WordsThenMore | apigpio/apigpio.py:1521 | the three packed words read back at the front of whatever follows them |
| Framing.DecodeScriptStatus | apigpio/apigpio.py:665-679 | a positive reply needs exactly 44 bytes, decoded as the status and ten parameters, each the signed word at its offset; a reply of 0 or less is the status, with no parameters |
| Framing.ScriptStatusRoundTrip | apigpio/apigpio.py:674-676 | decoding the payload the daemon sends for a status and ten parameters gives them back |
| Framing.BlockReadFetchesAsWritten | apigpio/apigpio.py:1991 | the fetch test as written, on the raw unsigned reply (see Findings) |
| Framing.BlockReadFetches | apigpio/apigpio.py:1991 | the corrected fetch test on the signed reply; its meaning is BlockReadFetchesMeaning |
| Framing.BlockReadFailureFetches | apigpio/apigpio.py:1991 | as written, a reply carrying PI_I2C_READ_FAILED (-83) passes the fetch test (see Findings) |
| Framing.BlockReadFetchesMeaning | apigpio/apigpio.py:1991 | the corrected test fetches data exactly for replies in (0, 2^31), never for an error code, and only where the code as written would also fetch |
| Channel.Take | apigpio/apigpio.py:512 | `sock_recv(n)` delivers min(n, available) bytes, from the front of the stream |
| Channel.Drop | apigpio/apigpio.py:512 | the stream left after a receive is the rest of it: what was received followed by it is the old stream |
| Channel.Reply | apigpio/apigpio.py:512-513 | the result word of the 16-byte response at the head of the stream; ReplyAtHead and ShortReply give its cases |
| Channel.ReplyAtHead | apigpio/apigpio.py:511-513 | a well-formed response at the head of the stream yields its result word and leaves exactly the bytes after it |
| Channel.ShortReply | apigpio/apigpio.py:513 | a response shorter than 16 bytes fails to unpack and uses up the stream |
| Channel.Socket.SendAll | apigpio/apigpio.py:511 | the data is appended to what was sent; nothing is received |
| Channel.Socket.Recv | apigpio/apigpio.py:512 | the bytes delivered are the front of the stream, and they are removed from it |
| Channel.ScriptStatusReply | apigpio/apigpio.py:662-680 | the outcome of `script_status` on a stream; what it gives for a status with parameters and for an error code is ScriptStatusExchange and ScriptStatusError |
| Channel.BlockReadReply | apigpio/apigpio.py:1986-1995 | the outcome of the corrected `i2c_read_i2c_block_data` on a stream; its meaning is BlockReadExchange |
| Channel.ScriptStatusExchange | apigpio/apigpio.py:662-676 | a reply of 44 followed by eleven signed words comes back as that status and those ten parameters, and exactly those bytes are consumed |
| Channel.ScriptStatusError | apigpio/apigpio.py:677-679 | a negative reply is returned as the status with no parameters, and nothing more is read |
| Channel.BlockReadExchange | apigpio/apigpio.py:1986-1995 | a positive reply is followed by exactly `count` data bytes; an error reply returns no data and leaves the next response in place |
| Channel.Pi.Command | apigpio/apigpio.py:500-514 | it sends the fixed frame `cmd, p1, p2, 0`, consumes one 16-byte response and returns the result word it carries |
| Channel.Pi.CommandExtUnlocked | apigpio/apigpio.py:530-541 | it sends the header and the encoded extents in order, built by extending a buffer extent by extent; a request that cannot be framed fails and sends nothing |
| Channel.Pi.CommandExt | apigpio/apigpio.py:516-528 | the same exchange as CommandExtUnlocked |
| Channel.Pi.StoreScript | apigpio/apigpio.py:583-602 | an empty script sends nothing and returns 0; otherwise the script is sent as the one extent with p3 its length, and the reply goes through `_u2i` |
| Channel.Pi.RunScript | apigpio/apigpio.py:604-635 | the parameters, packed word by word in a loop, are the one extent with p3 = 4n; with none, there is no extent and p3 = 0; the reply goes through `_u2i` |
| Channel.Pi.ScriptStatus | apigpio/apigpio.py:637-680 | it sends PROCP; a positive reply (read through `u2i`, never raised) is the size of a second payload, which is read and decoded; a reply of 0 or less is the status, and nothing more is read; a payload cut short fails with AttributeError |
| Channel.Pi.GpioTrigger | apigpio/apigpio.py:856-877 | the level is sent as a 4-byte extent after `user_gpio, pulse_len`, and the reply goes through `_u2i` |
| Channel.Pi.WaveAddGeneric | apigpio/apigpio.py:1391-1468 | no pulses sends nothing and returns 0; otherwise the pulses, packed in a loop, are sent with p3 = 12n and the reply goes through `_u2i` |
| Channel.Pi.WaveAddSerial | apigpio/apigpio.py:1470-1526 | empty data sends nothing and returns 0; otherwise the three words, then the data, with p3 = len(data) + 12, and the reply goes through `_u2i` |
| Channel.Pi.RxBuf | apigpio/apigpio.py:1974-1979 | it succeeds exactly when `count` bytes are pending, and returns the first `count` bytes of the stream; a shorter first receive fails with AttributeError |
| Channel.Pi.I2cReadI2cBlockData | apigpio/apigpio.py:1986-1995 | it sends the I2CRI frame; data is read only after a positive reply (corrected test, see Findings) |
| Bits.Bit | apigpio/apigpio.py:342 | `1 << g` is positive |
| Bits.HasBit | apigpio/apigpio.py:342 | `1 << g` has exactly bit g set |
| Bits.HasOr | apigpio/apigpio.py:441 | a bit of `a OR b` is set exactly when it is set in a or in b |
| Bits.HasAnd | apigpio/apigpio.py:412 | a bit of `a & b` is set exactly when it is set in both |
| Bits.HasXor | apigpio/apigpio.py:410 | a bit of `a ^ b` is set exactly when a and b differ on it |
| Bits.Or | apigpio/apigpio.py:441 | Python's `a OR b` on non-negative integers; HasOr states its meaning |
| Bits.And | apigpio/apigpio.py:412 | Python's `a & b`; HasAnd states its meaning |
| Bits.Xor | apigpio/apigpio.py:410 | Python's `a ^ b`; HasXor states its meaning |
| Bits.HasZero | apigpio/apigpio.py:451 | 0 has no bit set |
| Bits.Extensional | apigpio/apigpio.py:449-452 | numbers with the same bits are equal |
| Bits.NonZero | apigpio/apigpio.py:412 | a number with a bit set is non-zero |
| Bits.NoBits | apigpio/apigpio.py:412 | a number with no bit set is zero |
| Bits.AndBit | apigpio/apigpio.py:412-415 | `(1 << g) & a` is non-zero exactly when bit g of a is set, in either operand order |
| Bits.XorZero | apigpio/apigpio.py:417 | `a ^ b` is zero exactly when a equals b |
| Bits.OrBitAbsorbed | apigpio/apigpio.py:441 | `m OR (1 << g)` is m exactly when bit g of m is already set |
| Bits.OrBelow | apigpio/apigpio.py:441-443 | an OR of numbers below `1 << n` stays below it |
| Bits.BitBelow | apigpio/apigpio.py:342 | `1 << g` grows with g |
| Bits.Bit32 | apigpio/apigpio.py:442-443 | `1 << 32` is 2^32 |
| Notify.FlagBits | apigpio/apigpio.py:1249-1260 | WDOG and ALIVE are bits 5 and 6, and `flags & WDOG` or `flags & ALIVE` is non-zero exactly when that bit is set |
| Notify.DecodeRecord | apigpio/apigpio.py:408 | a record unpacks exactly from 12 bytes; any other length is StructError |
| Notify.RecordRoundTrip | apigpio/apigpio.py:408 | decoding the 12 bytes sent for a record gives the record back |
| Notify.CallbackEntry.constructor | apigpio/apigpio.py:331-342 | the entry keeps its GPIO and edge; its bit is `1 << gpio` |
| Notify.LevelOf | apigpio/apigpio.py:413-415 | the reported level is 0 or 1 |
| Notify.LevelOfGpio | apigpio/apigpio.py:413-415 | the new level is 1 exactly when the callback's GPIO bit of `level` is set, and 0 exactly when it is clear |
| Notify.EdgeRule | apigpio/apigpio.py:417-418 | `edge ^ new_level` fires exactly when the edge differs from the new level: RISING only on 1, FALLING only on 0, EITHER on both |
| Notify.EdgeFires | apigpio/apigpio.py:417 | the test `cb.edge ^ new_level`; EdgeRule states when it fires |
| Notify.NextLast | apigpio/apigpio.py:409-411 | the previous level after a record: the record's level for a level record, unchanged otherwise; ProcessRecord and StreamOfRecords use it |
| Notify.CallFor | apigpio/apigpio.py:408-427 | a callback's call, if any, is addressed to it, names its GPIO and carries the record's tick |
| Notify.LevelCallFor | apigpio/apigpio.py:409-418 | the call a level record makes to one callback; characterised by LevelRecordCalls, UnchangedNotCalled and EdgeRule |
| Notify.WatchdogCallFor | apigpio/apigpio.py:419-425 | the call a watchdog record makes to one callback; characterised by WatchdogRecordCalls and NoWatchdogNoCalls |
| Notify.RecordCalls | apigpio/apigpio.py:408-427 | a record makes at most one call per registration, and every call goes to a registered callback whose rule fires |
| Notify.RecordCallsAppend | apigpio/apigpio.py:412 | callbacks are served in list order: the calls for a split list are the calls for its first part followed by those for the rest |
| Notify.RecordCallsComplete | apigpio/apigpio.py:412-418 | every registered callback whose rule fires is called |
| Notify.BitChange | apigpio/apigpio.py:410-413 | a callback's bit is set in `level ^ last_level` exactly when the two levels differ on its GPIO |
| Notify.LevelRecordCalls | apigpio/apigpio.py:408-418 | each call of a level record goes to a registered callback whose GPIO changed between the two levels, reports that GPIO's new level and the record's tick, and has an edge other than that level |
| Notify.UnchangedNotCalled | apigpio/apigpio.py:410-413 | a callback whose GPIO did not change is not called for a level record |
| Notify.WatchdogRecordCalls | apigpio/apigpio.py:419-425 | a watchdog record calls every callback on the GPIO in `flags & 31`, with TIMEOUT and the record's tick, whether or not ALIVE is also set, and calls nothing else |
| Notify.NoWatchdogNoCalls | apigpio/apigpio.py:419-427 | a record with flags but no WDOG bit, a keep-alive, calls nothing |
| Notify.LevelRecordExample | apigpio/apigpio.py:408-418 | after level 0b0010, the record (5, 0, 1000, 0b1010) calls a RISING callback on GPIO 3 with level 1 and tick 1000, does not call one on GPIO 1, and sets the previous level to 0b1010 |
| Notify.StreamCalls | apigpio/apigpio.py:392-427 | the calls of the complete records at the front of a stream, record by record; StreamOfRecords states its order |
| Notify.StreamRest | apigpio/apigpio.py:392-408 | once the complete records are read, fewer than 12 bytes remain |
| Notify.StreamOfRecords | apigpio/apigpio.py:392-427 | records are processed in arrival order, each against the level left by the records before it |
| Notify.ShortReadPasses | apigpio/apigpio.py:405-406 | the short-read loop as written, pass by pass; ShortReadNeverCompletes and ShortReadExample state what it does |
| Notify.ShortReadNeverCompletes | apigpio/apigpio.py:405-406 | as written, the short-read loop never grows the buffer, so after any number of passes its guard still holds (see Findings) |
| Notify.ShortReadExample | apigpio/apigpio.py:405-406 | a record whose first 4 bytes arrive alone: one pass receives and loses the 8 bytes that would complete it, and the buffer stays at 4 bytes for ever |
| Notify.Mask | apigpio/apigpio.py:449-451 | the OR of the callbacks' bits, as the loop of `remove` computes it; its meaning is MaskCovers |
| Notify.MaskCovers | apigpio/apigpio.py:449-451 | bit g of the OR of the callbacks' bits is set exactly when some callback is on GPIO g |
| Notify.MaskBelow | apigpio/apigpio.py:442-443 | the mask always fits in the unsigned 32-bit word that NB sends |
| Notify.MaskSnoc | apigpio/apigpio.py:438-439 | registering a callback ORs its bit into the mask of the list |
| Notify.FirstIndex | apigpio/apigpio.py:447 | `list.remove` takes out the first occurrence: a position holding x with no x before it |
| Notify.RemoveFirst | apigpio/apigpio.py:447 | the list after `list.remove`; its contents are RemoveFirstContents |
| Notify.RemoveFirstContents | apigpio/apigpio.py:447 | removal shortens the list by one, takes one x out of its multiset, and keeps the other elements in order |
| Notify.ListedRemove | apigpio/apigpio.py:447 | a GPIO is watched before a removal exactly when it is watched after it or is the removed callback's |
| Notify.RemoveKeepsMask | apigpio/apigpio.py:446-455 | removing a callback leaves the mask unchanged exactly when another remaining callback is on the same GPIO |
| Notify.CallsTo | apigpio/apigpio.py:483-485 | the number of calls addressed to an entry is at most the number of calls |
| Notify.CallsToAppend | apigpio/apigpio.py:483-485 | counts of calls add up over concatenated call lists |
| Notify.CallsToRecord | apigpio/apigpio.py:412-427 | a record calls an entry once per registration of it when its rule fires, and never otherwise |
| Notify.CallbackHandler.constructor | apigpio/apigpio.py:362-369 | a new handler has no handle, mask 0, no callbacks, and is consistent |
| Notify.CallbackHandler.Valid | apigpio/apigpio.py:437-451 | `monitor` is the OR of the registered bits; the constructor establishes it, Register, Append and Remove keep it |
| Notify.CallbackHandler.Command | apigpio/apigpio.py:457-463 | the fixed frame on the notification socket, and the raw result word without `_u2i` |
| Notify.CallbackHandler.Connect | apigpio/apigpio.py:371-381 | NOIB is sent on the notification socket and its result becomes the handle; nothing else changes |
| Notify.CallbackHandler.Close | apigpio/apigpio.py:383-388 | once stopped nothing more is sent; otherwise NC with the handle, whose result becomes the handle and stops the handler; without a handle packing fails and nothing is sent |
| Notify.CallbackHandler.Register | apigpio/apigpio.py:437-441 | the entry goes at the end, `monitor` becomes `monitor OR bit`, and the mask stays the OR of the bits |
| Notify.CallbackHandler.SendMask | apigpio/apigpio.py:442-443 | NB goes with the handle and the current mask through the command socket; without a handle packing fails and nothing is sent |
| Notify.CallbackHandler.Append | apigpio/apigpio.py:437-443 | `append`: the entry at the end, its bit ORed into the mask, and exactly one NB with the new mask |
| Notify.CallbackHandler.Remove | apigpio/apigpio.py:445-455 | an absent entry changes nothing and sends nothing; a present one loses its first registration, the mask is recomputed in a loop as the OR of the remaining bits, and NB is sent exactly when the mask changed, that is, when no other callback remains on that GPIO |
| Notify.CallbackHandler.FillRecord | apigpio/apigpio.py:405-406 | the corrected short-read loop: received bytes are appended, none lost or reordered, until 12 are held or nothing more is pending |
| Notify.CallbackHandler.ProcessRecord | apigpio/apigpio.py:408-427 | the calls one record causes, in list order, are exactly RecordCalls of the callbacks and the previous level, and the previous level becomes the record's level for a level record and is unchanged for any other |
| Notify.CallbackHandler.WaitForNotif | apigpio/apigpio.py:390-435 | from a previous level of 0, the calls are exactly those of the complete records pending, in order, and only the incomplete tail is left unread; nothing is read once stopped |
| Notify.Callback.constructor | apigpio/apigpio.py:468-477 | a new callback has count 0, has heard no call, and has a fresh entry on the given GPIO and edge |
| Notify.Callback.Valid | apigpio/apigpio.py:483-496 | the count is the number of calls made to the entry under `_tally`, and 0 with a user function; CountCall, Deliver and WaitAndDeliver keep it |
| Notify.Callback.CountCall | apigpio/apigpio.py:483-485 | each call of `_tally` for this callback's entry adds exactly 1 to the count, which stays the number of calls made to the entry |
| Notify.Callback.Deliver | apigpio/apigpio.py:412-425 | of the calls `cb.func(...)` the reader loop makes, those to this callback's entry raise the count by exactly their number when `_tally` is the function, and leave it unchanged for a user function |
| Notify.Callback.Tally | apigpio/apigpio.py:487-496 | the count is the number of calls made to this callback's entry so far, and zero when the user supplied their own function |
| Notify.WaitAndDeliver | apigpio/apigpio.py:390-427 | the calls of the pending complete records reach their callbacks: each tallying callback's count rises by exactly the calls made to its entry, and every callback stays consistent; the handler keeps its callbacks, mask, handle and stop flag (so its mask invariant), nothing is sent, and exactly the incomplete tail stays unread |
| Notify.Callback.Cancel | apigpio/apigpio.py:479-481 | `cancel` is `remove` of this callback's entry, with all of its effects |
| Notify.AddCallback | apigpio/apigpio.py:1177-1217 | a new, consistent callback on the given GPIO and edge, with count 0, whose entry is appended to the handler with all the effects of `append` |

## Left out

- Sockets and the event loop: connecting, `TCP_NODELAY`, `setblocking`, the
  `asyncio.Lock` and the `f_stop`/`f_stopped` futures. A socket is a log of
  bytes sent plus a stream of pending bytes. The reader loop stops when
  fewer than 12 bytes are pending, where the real client waits for more.
  `stopped` stands for `f_stop` being done.
- Concurrency: callbacks added or removed while the reader loop runs, and
  commands interleaved on one socket under the lock. Each operation runs to
  completion on its own.
- The user callback functions. A call is recorded as a `Call(entry, gpio,
  level, tick)` value. The exception containment and the `print` of
  `_callback_ADT.func`, and the diagnostic prints of the reader loop, are
  not modelled.
- Notify.CallbackHandler.WaitForNotif: the reader's local `last_level` is
  the field `lastLevel`, set to 0 when the loop starts.
- Notify.CallbackHandler.FillRecord: the model's socket delivers everything
  that is pending, so the loop ends once nothing more is pending instead of
  waiting for more bytes. Inside WaitForNotif the first receive already
  returns a whole record whenever 12 bytes are pending, so the loop makes no
  pass there; it is proved on its own, for a buffer that arrived short.
- Channel.Pi.RxBuf: the source never waits for slow data. `sock_recv`
  returns an immutable `bytes`, so when the first receive of `_rxbuf` or of
  the second payload of `script_status` returns fewer bytes than asked,
  `extend` raises AttributeError. The model's socket delivers every pending
  byte at once, so a first receive is short only when the stream holds fewer
  bytes than asked. A payload split across receives while its rest is still
  in transit, which fails the same way in the source, is not modelled.
- Default arguments: `gpio_trigger`'s `pulse_len=10, level=1`,
  `wave_add_serial`'s `offset=0, bb_bits=8, bb_stop=2`, and `edge=RISING_EDGE`
  of `Callback` and `add_callback`. The model's operations take every
  argument explicitly.
- Notify.Callback.constructor: `func=None` is the flag `tallies`, and a user
  function is not a value of the model; what it does when called is left
  out, and only the calls dispatched to it are recorded.
- The GPIO range: callback GPIOs (the type `Notify.Gpio`) are typed `0..31`, the documented range of
  `user_gpio`. The source accepts a larger number: its bit pushes `monitor`
  past 2^32, so `append` has already changed `callbacks` and `monitor` when
  `struct.pack` fails with StructError. MaskBelow, and the mask fitting NB's
  word in Register and Remove, rely on this range.
- The roughly 80 other single-command wrappers of `Pi`. Each is one
  `_pigpio_aio_command` call, whose frame is Pi.Command's contract, followed
  by `_u2i`.
- `wave_create_and_pad`, `wave_send_using_mode` and `wave_tx_at`: they name
  opcodes that are not defined, so they would fail on every call.
- The documentation-only event flag (`NTFY_FLAGS_EVENT`): its dispatch is
  commented out in the code.
- Arguments that are not unsigned 32-bit values. `struct.pack` rejects
  those. The model types every packed argument as `u32`, except `p3`, whose
  overflow is kept as StructError.
- Byte order: `struct.pack` without a prefix uses the native order of the
  host the client runs on. The model fixes it to little-endian.
- The empty `str` that `i2c_read_i2c_block_data` returns when no data is
  fetched is modelled as an empty byte sequence.
- Extents that are lists of ints: a non-`str` extent is typed as bytes (`Binary`). In the
  source it may also be a list of ints, and `bytearray.extend` then raises
  ValueError for an item outside 0..255 (apigpio/apigpio.py:533-537).
  `wave_add_serial` passes its caller's `data` through, and its docstring
  shows such a list (`[23, 128, 234]`). A list of ints in range is modelled
  by the bytes it holds. The model does not have the ValueError path.
- `samples/` and `setup.py`.
- The module `ctes` is not part of this model. Its constants are declared
  with pigpio's values.

## Findings

| source | as written | input that shows it | evidently intended | confidence | as-written member | corrected member |
|---|---|---|---|---|---|---|
| apigpio/apigpio.py:1991 | `if bytes > 0` tests the raw unsigned reply of `_pigpio_aio_command_ext_unlocked`, so a negative error code, which arrives as a word with bit 31 set, passes the test and `count` bytes are read that the daemon never sends | reply 0xFFFFFFAD, the code -83 (PI_I2C_READ_FAILED) | read data only when the signed reply (`u2i(bytes)`) is positive | high; not executed | Framing.BlockReadFailureFetches | Framing.BlockReadFetchesMeaning |
| apigpio/apigpio.py:405-406 | the short-read loop discards what each `sock_recv` returns, so `buf` never grows and the loop never ends once a record arrives short, using up the bytes that would complete it (the corrected loop is proved on its own; in the reader loop the model's socket never delivers a short record) | a record whose first 4 bytes arrive alone, followed by the other 8 | append each received chunk to `buf` until it holds 12 bytes | high; not executed | Notify.ShortReadExample | Notify.CallbackHandler.FillRecord |
