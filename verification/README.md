# AutoOTA client protocol engine, modelled in Dafny

This project models the client side of AutoOTA, the over-the-air firmware update
protocol for a dual-bank microcontroller reached over Bluetooth LE. It covers three
layers:

- the six OTA commands (Read, Program, Erase, Verify, Reboot, Confirm): per-kind parameter
  validation, the little-endian wire encoding, the optional I/O buffer and the read-back
  result (`commands.dfy`, module `Commands`);
- the `AutoOTAController`: the key check, the challenge/response exchange of
  `send_command` (buffer write, challenge read, CMAC token, token write, main write,
  result read), the two-byte status decode, the raw buffer read and the rendering of
  Device Information and OTA EEPROM values (`channel.dfy`, module `Channel`);
- the `flashtool` rules:
  - the 512-byte chunk loops of read and write (`transfer.dfy`, module `Transfer`);
  - the busy-poll after erase and verify, the verify length and digest comparison, and
    the reboot and commit outcome handling (`flows.dfy`, module `Flows`);
  - the dual-bank target selection and the flash workflow (also in `Flows`);
  - the per-mode argument checks and the key conversion (`cli.dfy`, module `Cli`).

`results.dfy` holds `Option` and `Result`. `bytes.dfy` holds bytes, the LE u32 codec,
lowercase hex with its `fromhex` inverse (whitespace between byte pairs included), the
well-formedness rule of strict UTF-8 decoding, and Python slice semantics.

The Bluetooth transport is an abstract `Device`. Its reply to an operation may depend on
every operation issued before it. Every modelled operation returns the trace of
operations it issued, so ordering and "no I/O before validation" are stated as properties
of that trace. AES-CMAC and SHA-256 are opaque functions with 16- and 32-byte outputs.
The `do_cmd_*` flows take the exchange as a parameter of type `Transfer.Send`.
`Transfer.Sender` instantiates it with `Channel.SendCommand`.

Behaviour of the code worth knowing, all of it modelled as written:

- Reboot and commit treat only a transport (`BleakError`) failure as fatal. Any other
  exception from the exchange, including the missing-key and empty-challenge errors, is
  reported as "device rebooted", and the link is then closed.
- Verify hashes `min(len(file), --length)` bytes locally (the whole file when `--length`
  is absent or 0). The command sent to the device carries `--length` unchanged.
- Flash erases and writes one bank's worth (0x36000 bytes, capped at the file size).
  It then verifies with the length reset to the file's full size.
- Flash ignores a failed Device Information read, because its bare `except:` also catches
  the `sys.exit` raised inside. A failed OTA EEPROM read stops it, and so does a readable
  OTA EEPROM value that is not well-formed UTF-8, because `decode('utf-8')` raises.
- `bytes.fromhex` skips whitespace between byte pairs, and `connect_ble` converts the key
  in every mode. The info modes do not check the key text first, so spaced key text
  still yields a keyed controller there.
- Command validation accepts any integer address and length above zero. Values outside
  the u32 range fail later, in `struct.pack`, which is modelled as `PackError`.
- The erase and verify flows do not disconnect when they fail: they exit.
- A one-byte status read fails (the code byte is missing). Bytes past the second are
  ignored.

## Model

| member | source | states |
|---|---|---|
| Bytes.ReadLeU32OfLeU32 | AutoOTACommand.py:91 | reading back the four `'<I'` bytes of any u32 value gives that value |
| Bytes.LeU32OfReadLeU32 | AutoOTACommand.py:147 | any four bytes are the `'<I'` packing of the value they decode to |
| Bytes.LeU32Injective | AutoOTACommand.py:169 | two u32 values with the same packing are equal |
| Bytes.Hex | AutoOTAHelper.py:209 | the hex rendering has two characters per byte, every one a lowercase hex digit (0-9, a-f) |
| Bytes.FromHexOfHex | AutoOTAHelper.py:234 | `bytes.fromhex` of the rendered hex gives back the original bytes |
| Bytes.HexInjective | AutoOTAHelper.py:204-209 | two byte strings render to the same hex only when they are equal |
| Bytes.FromHexAllDigits | flashtool.py:112 | `fromhex` of an even-length all-hex-digit string (either case) succeeds with half as many bytes |
| Bytes.FromHexSkipsSpace | flashtool.py:112 | `fromhex` skips any run of ASCII whitespace in front of the text |
| Bytes.FromHexAppend | flashtool.py:112 | `fromhex` of the hex of some bytes followed by other text gives those bytes followed by what the text gives, and fails when the text fails |
| Bytes.Utf8EncodeValid | AutoOTAHelper.py:206 | the UTF-8 encoding of any sequence of scalar values is well-formed, so `decode('utf-8')` accepts every text a device can send |
| Bytes.Utf8Rejects | AutoOTAHelper.py:231 | a lone continuation byte, an overlong form, an encoded surrogate, 0xFF and a truncated sequence are refused; the euro sign's three bytes are accepted |
| Bytes.PySlice | flashtool.py:284 | a Python slice, with its clamping of out-of-range and negative bounds, is never longer than the data and is exactly `data[lo..hi]` when the bounds are in range |
| Commands.ValidateRegion | AutoOTACommand.py:78-87 | a region check passes iff address and length are ints and length is positive; a missing address, a non-int address and a missing length each give their own error, in source order |
| Commands.Validate | AutoOTACommand.py:103-112 | Read/Erase/Verify pass iff int address and positive int length; Program passes iff int address and bytes data (any length); Reboot and Confirm always pass |
| Commands.PackU32 | AutoOTACommand.py:116 | `struct.pack('<I')` succeeds iff the value is in [0, 2^32), giving its LE bytes |
| Commands.Encode | AutoOTACommand.py:89-91 | Read/Erase/Verify encode to 9 bytes (opcode, LE address, LE length), Program to 5 (0x01, LE address), Reboot to [0x04], Confirm to [0x05]; each fails iff a field is outside u32 |
| Commands.IoBuf | AutoOTACommand.py:118-125 | only a Program with bytes data has a buffer, and it is exactly that data |
| Commands.Payload | AutoOTAHelper.py:284-287 | a non-empty payload comes only from a Program, and is its buffer |
| Commands.SetResult | AutoOTACommand.py:93-94 | a Read stores the buffer unchanged as its result and keeps its address and length |
| Commands.RegionEncodingRoundTrip | AutoOTACommand.py:145-147 | equal encodings of two region commands mean the same opcode, address and length |
| Commands.SampleEncodings | AutoOTACommand.py:114-116 | Read(0x1000, 256), Program(0x2000) and Reboot have their expected wire bytes |
| Commands.ProgramEncodingIgnoresData | AutoOTACommand.py:103-116 | Program with any data, empty included, is valid, and the data never reaches the command bytes |
| Channel.MakeController | AutoOTAHelper.py:184-195 | no key gives a keyless controller; a non-bytes key or one that is not 16 bytes is refused; a 16-byte key is kept |
| Channel.PayloadMac | AutoOTAHelper.py:308-316 | the middle token block is the payload's CMAC, or 16 zero bytes when there is no payload |
| Channel.Signature | AutoOTAHelper.py:301-326 | the token signature is the CMAC of a 32 + len(challenge)-byte message whose first block is the command's CMAC and whose tail is the challenge |
| Channel.Token | AutoOTAHelper.py:301-320 | the token is CMAC(command bytes), then the payload block, then the challenge |
| Channel.Preamble | AutoOTAHelper.py:284-291 | the buffer write is issued iff the command's buffer is non-empty, and it is the write of exactly that buffer to the buffer attribute with the session's response setting |
| Channel.AuthenticateWellOrdered | AutoOTAHelper.py:286-345 | the ops issued are a prefix of the protocol (optional buffer write, challenge read, token write, main write, result read for a Read); every op but the last was answered; a raised reply ends the exchange with exactly that transport error; an empty challenge ends it at the challenge read with `NoChallenge`; success means the whole protocol ran, and a Read's result is the reply to the final buffer read |
| Channel.Authenticate | AutoOTAHelper.py:283-345 | one to five ops; failure is a transport fault or an empty challenge (the device answered the challenge read with nothing); success needs a non-empty challenge; a non-Read's result is the command itself and a Read's is the reply to the last buffer read |
| Channel.ResultReadOnlyForRead | AutoOTAHelper.py:339-345 | `cmd_need_result` holds for a Read alone: a successful exchange ends with the buffer read iff the command is a Read, and with the main write otherwise |
| Channel.SendCommand | AutoOTAHelper.py:270-346 | no key, an invalid command or an unpackable field fail with no I/O; every other exchange is a prefix of the protocol that stops at its first failure with the matching error |
| Channel.TokenDeterminesChallenge | AutoOTAHelper.py:319-320 | two tokens for the same command and payload are equal only for the same challenge |
| Channel.TokenPayloadBlock | AutoOTAHelper.py:308-320 | the payload block is zeros without a payload and the payload's CMAC with one; a 16-byte challenge makes a 48-byte token |
| Channel.DecodeStatus | AutoOTAHelper.py:255-263 | an empty read and a one-byte read fail; otherwise busy iff byte 0 is non-zero, code is byte 1, success iff both bytes are zero |
| Channel.SampleStatuses | AutoOTAHelper.py:244-268 | [1,0] is busy, [0,0] is success, [0,7] is a failure with code 7 |
| Channel.ReadOtaStatus | AutoOTAHelper.py:244-268 | one read of the main attribute; a transport fault, a decode error or the decoded status |
| Channel.ReadIoBuffer | AutoOTAHelper.py:348-355 | one read of the buffer attribute, returning exactly the device's reply |
| Channel.RenderValue | AutoOTAHelper.py:204-209 | an empty value is None; a readable value fails iff it is not well-formed UTF-8 and otherwise is that text; any other value is hex with two characters per byte that decodes back to the value |
| Channel.ReadValues | AutoOTAHelper.py:197-216 | attributes are read in catalog order, at most one read each; a fault or an undecodable readable value stops the walk after at least one read; success reads every attribute and yields one value per attribute |
| Channel.ReadValuesReplies | AutoOTAHelper.py:197-216 | a reported fault is the reply to the last read issued, an undecodable value is the last read's reply failing to decode, and on success each value is the rendering of the reply to its own read |
| Channel.ReadDeviceInfo | AutoOTAHelper.py:197-216 | only reads are issued, and success yields the seven Device Information values |
| Channel.ReadOtaEepromInfo | AutoOTAHelper.py:218-242 | only reads are issued; success yields six values, the first being the raw flash bank rendered as hex |
| Transfer.ChunkPlan | flashtool.py:220-222 | the loop's first chunk is `min(remain, 512)` bytes at the start address |
| Transfer.ChunkPlanNonPositive | flashtool.py:282-284 | a total of zero or less still yields exactly one chunk, of that size |
| Transfer.ChunkPlanSizes | flashtool.py:213-248 | a positive total takes ceil(total/512) chunks of 1 to 512 bytes, all but the last full |
| Transfer.ChunkPlanContiguous | flashtool.py:276-300 | chunks start at the base, each begins where the previous ended, and the last ends at base + total |
| Transfer.ChunkPlanTotal | flashtool.py:282-300 | the chunk sizes sum to the total |
| Transfer.ChunkedRead | flashtool.py:213-248 | the read loop equals the reference run: each chunk's Read in order, results concatenated, stopping at the first failure, then one disconnect on success |
| Transfer.ReadNonPositiveFails | flashtool.py:215-222 | a read of length zero or less fails validation with no I/O |
| Transfer.EffectiveLength | flashtool.py:278 | the write total is min(file size, --length) when --length is given and non-zero, else the file size |
| Transfer.ChunkedWrite | flashtool.py:258-304 | the write loop equals the reference run over the chunk plan of the effective length, with the optional disconnect; on success it accounts for exactly that many bytes |
| Transfer.WriteLoop | flashtool.py:276-300 | the loop sends `data[offset : offset + chunk]` to `base + offset` per chunk, stops at the first failure, and on success has processed the whole total |
| Transfer.WriteEmptyFile | flashtool.py:282-284 | an empty file sends exactly one Program with empty data to the base address |
| Transfer.SlicesCoverData | flashtool.py:284 | the chunk slices, concatenated, are exactly the data range: no gap, no overlap, in order |
| Transfer.SenderDeliversPayload | AutoOTAHelper.py:287-291 | a successful Program exchange writes exactly its data to the buffer attribute and nothing else there |
| Transfer.WriteSendsFilePrefix | flashtool.py:276-300 | a successful write of a positive total delivers the file's first n bytes to the device buffer, in order |
| Flows.Decide | flashtool.py:319-327 | success finishes (checked first); otherwise busy keeps polling; otherwise it aborts with the device's code |
| Flows.Poll | flashtool.py:363-371 | only status reads are issued; completion, device failure or an unreadable status each follow a run of busy readings, and the last reading decides the outcome |
| Flows.PollCompletesScenario | flashtool.py:319-327 | a device answering busy, busy, success completes the poll after exactly 3 status reads |
| Flows.PollFailsScenario | flashtool.py:319-327 | a device answering busy, then error 3 fails the poll with code 3 after exactly 2 status reads |
| Flows.SendAndPoll | flashtool.py:310-327 | a rejected command ends the flow with no poll; an accepted one is followed by the poll, and the flow succeeds iff the poll completes |
| Flows.EraseFlow | flashtool.py:306-330 | a rejected Erase ends the flow with no status read; an accepted one is followed by the poll; erase succeeds iff the poll completes, and only then disconnects on request; a failed poll ends the flow with the poll's reason |
| Flows.EraseSuccessMeans | flashtool.py:306-330 | a successful erase is the Erase exchange, then status reads ending in a success after busy ones, then the optional disconnect |
| Flows.EraseRejectedDoesNotPoll | flashtool.py:310-319 | an erase with length zero or less is rejected by validation with no I/O and no polling |
| Flows.VerifyNothingToDo | flashtool.py:348-353 | verify does no I/O, and reports nothing to verify, exactly when the local length is not positive |
| Flows.VerifyFlow | flashtool.py:333-391 | a local length `min(len(file), --length)` (the whole file when --length is absent or 0) of zero or less fails with no I/O; otherwise Verify is sent with --length unchanged and polled; a failed exchange or poll ends the flow; after completion one buffer read follows, then the disconnect unless it raised; success iff the device's reply is SHA-256 of the file's first n bytes |
| Flows.VerifyComparesDigest | flashtool.py:374-391 | after a completed poll and a buffer read, verify succeeds iff the buffer equals SHA-256 of the file's first n bytes |
| Flows.RestartFlow | flashtool.py:393-407 | a transport error is fatal and skips the disconnect; success is "requested"; any other error counts as rebooted; the non-fatal cases disconnect |
| Flows.CommitWithoutKeyLooksRebooted | flashtool.py:409-422 | commit without a key issues no command, yet reports the device as rebooted and disconnects |
| Flows.SelectTarget | flashtool.py:443-455 | a target is chosen iff the rendered flash bank is one of the two markers: "a5a5a5a5" selects bank B at 0x37000 and "5a5a5a5a" bank A at 0x1000, each 0x36000 long; every other value, a missing one included, is an unknown bank state |
| Flows.TargetIsIdleBank | flashtool.py:443-452 | marker "a5a5a5a5" targets bank B at 0x37000 and "5a5a5a5a" bank A at 0x1000, each 0x36000 long with that bank's file; the target never overlaps the running bank |
| Flows.SelectTargetFromRaw | flashtool.py:443-455 | the raw flash-bank bytes select B iff they are four 0xa5, A iff four 0x5a, and nothing otherwise (empty included) |
| Flows.FlashFlow | flashtool.py:424-470 | the trace opens with the Device Information reads and then the OTA EEPROM reads whatever the first gave; a failed OTA read stops the flow there; the flash bank is that read's first value and picks the target; with no target only those reads are issued; with one, the rest of the trace and the outcome are the flash of that bank's image |
| Flows.FlashTo | flashtool.py:457-468 | erase the target region, write one bank's worth of the image, verify against the image's full size, commit: each step runs after the ops of the steps before it and only if they succeeded; the trace is the steps that ran; success iff erase, write and verify succeed and the commit is not refused by the transport |
| Flows.FlashSuccessMeans | flashtool.py:457-468 | a successful flash had its Erase accepted, delivered the image's first min(size, 0x36000) bytes to the buffer in order, got SHA-256 of the whole non-empty image back from verify, and closed the link last |
| Flows.FlashFlowSuccessMeans | flashtool.py:424-470 | a successful `flash` read one of the two running-bank markers, flashed the other bank with that bank's image as above, and closed the link last |
| Cli.ValidateArgs | flashtool.py:548-559 | a missing-option error names an option the mode requires that was not given; a key error means a key was required, given and malformed |
| Cli.ValidateArgsComplete | flashtool.py:533-559 | validation passes iff every option the mode requires is given and, when a key is required, it is 32 hex characters |
| Cli.InfoModesNeedNothing | flashtool.py:548 | the info modes validate with any combination of options |
| Cli.ControllerFromCli | flashtool.py:111-112 | an absent or empty key gives a keyless controller; other key text fails iff `fromhex` rejects it or it spells other than 16 bytes, and otherwise the controller holds the bytes it spells |
| Cli.ValidatedKeyConnects | flashtool.py:544-546 | a key that passed validation always yields a keyed controller holding the 16 bytes it spells |
| Cli.SpacedKeyConnects | flashtool.py:111-112 | key text with a space between two byte pairs still yields a keyed controller holding the 16 bytes it spells |

## Left out

- The `AutoOTADevice` scanner and connection, and the GATT reads and writes. They are the
  abstract `Device` instead. The `--write-no-rsp` setting is its `writeResponse` parameter.
- The AES-CMAC and SHA-256 implementations. They are opaque functions with fixed output
  widths. Properties that need collision resistance are not stated: that a one-byte
  corruption causes a digest mismatch, or that a new challenge changes the signature.
  What is proved is that the signed token contains the challenge itself.
- RenderValue: the decoding of a readable value to code points. Its failure is modelled
  exactly, by the well-formedness rule of strict UTF-8, and a decoded value keeps its raw
  bytes as `Text`.
- Progress bars, the spinner, the hex view, logging and the printing of the info modes.
  These are presentation only. The info, devinfo and otainfo modes are modelled by their
  reads alone.
- The argparse setup, `_int_auto` (`int(s, 0)`), asyncio bridging, the global session
  cache of `connect_ble`, and the file-system checks and opens. Files arrive as byte
  sequences and paths as names.
- Python's `bool` being an `int` in command validation.
- `_ensure_connected`. The connection is dropped only by the disconnects the flows issue
  last.
- Flows.Poll: the source polls without bound. The model takes a `fuel` bound, and running
  out of it is a separate outcome (`GaveUp`, surfaced by the flows as `StillBusy`) that
  the source never reaches.
- Commands.IoBuf: for a Program whose data is not bytes the source returns that value as
  the buffer. The model returns none, because `send_command` validates before asking for
  the buffer.
- Flows.FlashTo: the write step is the reference chunk run that `Transfer.ChunkedWrite` is
  proved equal to, rather than a call of that method. The image file checks and
  `stat().st_size` are the byte sequences' lengths.
