# AT49F512 programmer script, modelled in Dafny

`ROM-el2364.py` is a command-line script that reads, writes, verifies and
erases an AT49F512 parallel EEPROM (64 KiB, addresses 0x0000–0xFFFF) through
an Arduino acting as a bus bridge on a serial link. This project models the
script from the command line to the last byte on the link. It proves:
- what the argument handling resolves;
- which bytes go out on the link;
- how the replies are split into diagnostic text and one-byte results;
- which bytes are hashed, written to a file or printed as a hex dump;
- how the script ends.

Modules, one per file:

- `Bytes` (`bytes.dfy`): the byte type, `Option` (standing in for the
  script's `-1` "not given" sentinel) and `Result`.
- `Arguments` (`arguments.dfy`): the action letter, the loop over the
  remaining arguments (flag, hex addresses with their clamps and swap, file
  name), and the per-mode defaults and usage errors. Each stage has a
  specification function (`ScanAll`, `Resolution`) and an in-place method
  (`ScanArguments`, `ResolveMode`) proved equal to it.
- `Packets` (`packets.dfy`): the outbound requests. These are the addressed
  and repeat forms of read and write, and the erase request. The module has
  their byte encoding with a decoder and round trips, the request lists of a
  transfer, and the bridge's auto-incrementing address cursor.
- `Frames` (`frames.dfy`): the inbound framing. A length byte other than 1
  introduces diagnostic text: `read(L)` in `read_range`, `readline()` in the
  write and erase loops. The first length-1 frame carries the result byte.
  `Await` is the specification of the wait. It is proved sound and complete
  against `Wire`, the encoding of well-formed frames.
- `Serial` (`serial.dfy`): the serial port as a class `Link`, with the bytes
  the bridge will send (`input`) and the bytes the host has written
  (`output`). It has `read(n)` and `readline()` with pyserial's short-read
  behaviour, and the wait loop `AwaitResult`, proved to compute `Await`.
- `HexDump` (`hexdump.dfy`): the console dump line of `read_range`, built
  with `+=` loops as the script builds it. The module proves the line's
  layout for a full 16-byte chunk, and that its hex fields read back as the
  address and the bytes.
- `Reading` (`read.dfy`): `read_range` as a step function over a state
  record, and the loop as a method proved to compute it. Lemmas cover what
  is sent whatever the bridge answers, and what a bridge that answers every
  request leads to.
- `Writing` (`write.dfy`): the write loop, in the same form.
- `Session` (`session.dfy`): the `INIT` handshake, the erase exchange, the
  four actions and the whole script (`Script`, computed by the method
  `RunScript`), with end-to-end scenarios.

The environment is passed in as parameters:
- the first argument and the remaining arguments, already classified as
  `-v`, hex number or other word;
- what the file system says about the named file (`PathInfo`), with its
  contents;
- every byte the bridge will send;
- SHA-256, as a function `sha` from bytes to a digest.

The model therefore fixes which bytes are hashed and which digests are
compared, not the digest values themselves. The script's
`sys.exit`/exceptions become the `Ending` of the session, or a `Stop` of a
transfer.

Where the written behaviour of the script departs from what its own help
text (ROM-el2364.py:10-44) describes, the model follows the code:

- The help text says verify with a file ends at start + the file's length
  (lines 22-26, 37-39). Verify mode never sets the end from the file
  (lines 133-142): it only warns when the file's size differs from
  end - start. `Resolution` states this.
- The start address is clamped to 0xFFFF. The warning printed says 0x10000.
- Verify mode never defaults the start address. Without an address and
  without a file, the range is [-1, 0x10000) and the first read request
  encodes -1, so `to_bytes` raises. `VerifyWithoutStart` states this. With a
  file and no address both ends stay -1, so the range is empty.
- Verify mode never reads the file it is given: only its size is compared,
  for a warning. `VerifyIgnoresFileContents` states this.
- In the write loop a status byte other than 0 or 1 is not fatal: one more
  line is read and printed, and the loop goes on. `WriteStepUnknown` states
  this.
- In verify mode a file whose size cannot be read is not a usage error:
  `os.path.getsize` raises and nothing catches it (line 140). It is the
  ending `Misconfigured(SizeRaised)`, before the port is opened.
- In erase mode the status byte is printed whatever it is; a status of 1
  does not abort. `EraseReply` states this.
- Diagnostic text is read with `readline()` in the write and erase loops,
  whatever the length byte says. Only `read_range` reads exactly `L`
  bytes.
- An empty range, where start equals end, is accepted and transfers
  nothing.
- In `read_range`, after a chunk is printed with fewer than 16 addresses
  left, `buffersize` becomes `end - i`, an address rather than a count. So
  the tail of a range that is not a multiple of 16 is never printed.
  `ReadRangeReplies` states that the dump is exactly one line per full
  16-byte chunk.
- `print_progress_bar(start, end, 80, i)` divides by `end - 1 - start`. A
  one-byte range therefore raises `ZeroDivisionError` after its only
  exchange. This is modelled as the stop `ProgressDivByZero`.

## Model

| member | source | states |
|---|---|---|
| Arguments.ModeOfFirstLetter | ROM-el2364.py:59-69 | the mode is chosen by the first letter of the first argument alone, in either case: an argument selects a mode exactly when its lower-cased first letter is that of the mode's keyword; an empty argument or any other letter selects none |
| Arguments.ScanArguments | ROM-el2364.py:71-96 | the in-place argument loop leaves the dictionary and warnings of `ScanAll`; its addresses are clamped and ordered, its addresses, flag and file name are as `ExpectedRange`, `VerifyFlag in tokens` and `LastWord` say |
| Arguments.ScanCharacterised | ROM-el2364.py:71-96 | the argument loop agrees with an independent description: the mode is kept, the first address (clamped to 0xFFFF) and the second (clamped to 0x10000) become start and end in increasing order and later addresses are ignored, `-v` anywhere sets the flag, and the last word is the file name |
| Arguments.ExpectedRangeOrdered | ROM-el2364.py:77-90 | whatever the arguments, a set start is at most 0xFFFF, a set end at most 0x10000, an end is set only after a start, and start <= end |
| Arguments.Resolution | ROM-el2364.py:98-150 | write needs a file name and a regular file (each failure its own error), defaults start to 0, defaults end to start + file size within the chip with a warning when cut, and cuts a given end to start + size, so after an ordered scan the range lies in the chip and the file covers it; read defaults to the whole chip; verify never defaults start; without a file it sets an absent end to 0x10000 and keeps a given one; with a file it changes nothing, only warns on a size mismatch, and a missing path, a non-file or an unreadable size each ends the script; erase fails exactly when an address was given; mode, flag and file name are never changed |
| Arguments.ResolveMode | ROM-el2364.py:98-150 | the in-place per-mode checks return exactly what `Resolution` specifies |
| Arguments.ResolvedRange | ROM-el2364.py:71-150 | after both stages, for any arguments: a write that gets through has a regular file, 0 <= start <= end <= 0x10000 and end - start at most the file size; a read always gets through with 0 <= start <= end <= 0x10000; an erase gets through exactly when no address was given |
| Packets.Encode | ROM-el2364.py:203-206 | every packet is two to five bytes long and its first byte counts the bytes that follow it |
| Packets.DecodeEncode | ROM-el2364.py:295-297 | the receiving end decodes every request's packet back to that request, so no two requests share a packet |
| Packets.EncodeDecode | ROM-el2364.py:340 | every packet the receiving end accepts is exactly the encoding of the request it decodes to |
| Packets.ParseEncodeAll | ROM-el2364.py:201-207 | a stream of packets written one after another splits, by the length bytes, back into exactly the requests sent |
| Packets.ReadRequestsShape | ROM-el2364.py:201-206 | a read transfer sends the addressed request first and the repeat request for every later byte |
| Packets.WriteRequestsShape | ROM-el2364.py:294-297 | a write transfer sends one request per byte carrying that byte, with the start address in the first only |
| Packets.ReadAddressProgression | ROM-el2364.py:202-206 | with the bridge's auto-increment, byte i of a read transfer is read from start + i |
| Packets.WriteAddressProgression | ROM-el2364.py:294-297 | with the bridge's auto-increment, byte i of the file is written to start + i and carried by the i-th request |
| Frames.LineOfShape | ROM-el2364.py:301 | `readline()` returns a prefix of the input with no newline before its last byte: a complete line, or all that is left when no newline comes |
| Frames.LineOfLine | ROM-el2364.py:301 | a complete line followed by more input is returned whole and nothing after it |
| Frames.TextOfWellFormed | ROM-el2364.py:209-210 | text read for a diagnostic frame that is followed by more input is exactly L bytes (read_range) or one complete line (write, erase) |
| Frames.Await | ROM-el2364.py:208-211 | the wait consumes input, and when no length-1 frame arrives it has consumed all of it |
| Frames.AwaitSound | ROM-el2364.py:208-211 | when the wait finds its result, the input was a run of well-formed diagnostic frames, then the length byte 1, then what is left: a frame of length other than 1 never ends the wait |
| Frames.AwaitComplete | ROM-el2364.py:208-211 | conversely, any run of well-formed diagnostic frames followed by a length-1 frame is read as exactly those frames, leaving the bytes after the length byte |
| Frames.AwaitReply | ROM-el2364.py:208-213 | on a run of well-formed answers the wait for answer i prints its diagnostics and stops right before the byte it carries |
| Serial.Link.Write | ROM-el2364.py:207 | `write` appends the packet to what the host has sent and reads nothing |
| Serial.Link.Read | ROM-el2364.py:208 | `read(n)` returns the next min(n, available) bytes and consumes exactly those |
| Serial.Link.ReadLine | ROM-el2364.py:301 | `readline()` returns the line `LineOf` specifies and consumes exactly it |
| Serial.ReadText | ROM-el2364.py:210 | one diagnostic text is read as its style prescribes and consumed |
| Serial.AwaitResult | ROM-el2364.py:208-211 | the host's wait loop returns what `Await` specifies, leaves the input after the result's length byte, and writes nothing |
| HexDump.HexDigitsRoundTrip | ROM-el2364.py:222 | `format(a, 'x')` writes hex digits only, and they read back as a |
| HexDump.HexDigitsShort | ROM-el2364.py:222-223 | a number below 16^k takes at most k hex digits, so a chip address is never longer than the four-digit field |
| HexDump.HexValueZeros | ROM-el2364.py:223 | the leading zeros the address is padded with do not change its value |
| HexDump.AddressField | ROM-el2364.py:221-223 | the address of a chip location is printed as exactly four hex digits that read back as that address |
| HexDump.Hex2RoundTrip | ROM-el2364.py:225 | `"%02x" % b` is exactly two hex digits that read back as b |
| HexDump.ShownIsPrintable | ROM-el2364.py:234-237 | a byte is shown as '.' exactly when it is outside 32..126 or is '.' itself, and a printable byte is shown as its own character |
| HexDump.AppendHexColumn | ROM-el2364.py:224-227 | the first `for j` loop appends one cell per byte, with the gap after the eighth: the hex column |
| HexDump.AppendTextColumn | ROM-el2364.py:233-237 | the second `for j` loop appends one character per byte: the text column |
| HexDump.FormatDumpLine | ROM-el2364.py:221-243 | the line built with `+=` is the dump line of the chunk at its address, with the padding as written |
| HexDump.HexColumnLayout | ROM-el2364.py:224-227 | in the hex column, byte k's two digits start at 3k (3k + 3 from the ninth byte on) and are followed by a space |
| HexDump.TextColumnLayout | ROM-el2364.py:233-237 | the text column holds exactly one character per byte, byte k's at position k |
| HexDump.DumpLineLayout | ROM-el2364.py:221-243 | a full chunk's line is 84 characters: the line-clearing escape, the address in four hex digits that read back as it, byte k's two digits reading back as byte k at a fixed column, three spaces and a bar, byte k shown at column 67 + k, and a closing bar |
| Reading.ReadStepSent | ROM-el2364.py:201-248 | one exchange sends one more request of the transfer, or nothing when the first address cannot be encoded, and hashes at most one byte |
| Reading.ReadFromSent | ROM-el2364.py:201-248 | from any exchange on, the transfer has always sent a prefix of its requests, all of them exactly when it ran to its end, hashing at most one byte per request |
| Reading.ReadRangeSent | ROM-el2364.py:196-251 | whatever the bridge answers, `read_range` sends exactly the first k read requests for some k no larger than the range, all of them when it runs to its end, and hashes at most k bytes |
| Reading.ReadRangeEmpty | ROM-el2364.py:201 | an empty or reversed range sends, reads and hashes nothing |
| Reading.ReadRangeOverflow | ROM-el2364.py:205-206 | a non-empty range starting outside 0..0xFFFF stops on the first packet, before anything is sent |
| Reading.DumpStep | ROM-el2364.py:219-247 | one more byte joins the chunk being collected; a complete chunk is printed at the address of its first byte and cleared; once `buffersize` has been changed no further chunk reaches it |
| Reading.ReadRangeReplies | ROM-el2364.py:196-251 | against a bridge that answers every request: one request per address, the hash covers exactly the bytes answered, the file receives the same bytes, diagnostics are printed in order, the input after the answers is untouched, and the dump is one line per full 16-byte chunk at its address and none for a shorter tail; a one-byte range still ends in the progress bar's division by zero |
| Reading.CollectOn | ROM-el2364.py:215-247 | the `if dump == True` block updates the file, chunk, `buffersize` and printed lines as `Collect` specifies, each printed line being the chunk's dump line |
| Reading.ReadExchange | ROM-el2364.py:201-248 | one pass of the loop body writes the next request to the link and leaves the transfer where `ReadFrom` continues, or with the exception it raised |
| Reading.ReadRangeOn | ROM-el2364.py:196-251 | the loop of `read_range` on the link computes `ReadRange`: the hashed bytes, file bytes, diagnostics, dump lines and stop it specifies, with exactly the specified bytes written to the link |
| Writing.WriteStepSent | ROM-el2364.py:294-312 | one exchange of the write loop sends the next write request, prints at most one notice, and on a rejected byte reports start + i |
| Writing.WriteFromSent | ROM-el2364.py:294-314 | from any exchange on, the loop has sent a prefix of its requests, all of them exactly when it ran to its end, and a rejected byte is the last one sent |
| Writing.WriteRangeSent | ROM-el2364.py:294-314 | whatever the bridge answers, the write loop sends exactly the first k write requests and none after a rejection; the address it reports for a rejected byte is the one the bridge's cursor held for it, and that request carried the file's byte |
| Writing.WriteRangeEmpty | ROM-el2364.py:294 | an empty range sends and reads nothing |
| Writing.WriteFromReply | ROM-el2364.py:303-312 | an answer "written" goes on (or ends in the progress bar's division by zero on a one-byte file); an answer "rejected" stops at that byte's address |
| Writing.WriteStepUnknown | ROM-el2364.py:311-312 | a well-formed answer whose status is neither 0 nor 1 does not stop the loop: the next line is read and kept as a notice, and the exchange goes on with the input after that line |
| Writing.WriteRangeWritten | ROM-el2364.py:294-314 | against a bridge that writes every byte: one request per byte, diagnostics printed in order, no notice, the input after the answers untouched |
| Writing.WriteRangeRejected | ROM-el2364.py:306-310 | when every byte before the last answer is written and the last is rejected, the loop stops reporting start + that byte's index, after sending exactly one request per answer |
| Writing.WriteExchange | ROM-el2364.py:295-312 | one pass of the loop body writes the request for byte i to the link and leaves the loop where `WriteFrom` continues, or with the stop it ends in |
| Writing.WriteRangeOn | ROM-el2364.py:294-314 | the write loop on the link computes `WriteRange`: the diagnostics, notices and stop it specifies, with exactly the specified bytes written to the link |
| Session.Greet | ROM-el2364.py:164-170 | the handshake succeeds exactly on the four bytes "INIT" and leaves everything after them; four other bytes are reported and nothing else is consumed; fewer than four bytes mean it never ends |
| Session.GreetReady | ROM-el2364.py:166-170 | a bridge whose first bytes are "INIT" is accepted, with none of what follows it consumed |
| Session.InitBridge | ROM-el2364.py:160-172 | `init_arduino` on the link ends as `Greet` says, writes nothing, and leaves the input after the marker |
| Session.EraseExchange | ROM-el2364.py:341-346 | a status byte is reported only when the input really was well-formed diagnostic lines, a length-1 frame and that byte; otherwise the input runs dry |
| Session.EraseReply | ROM-el2364.py:341-346 | after diagnostic lines and a length-1 frame, the byte it carries is printed as the status whatever its value, leaving the rest of the input |
| Session.EraseOn | ROM-el2364.py:338-346 | the erase action sends exactly the erase request and consumes what `EraseExchange` specifies |
| Session.WriteAction | ROM-el2364.py:268-326 | the write action on a fresh link ends as `WriteSession` specifies: the file's first end - start bytes are hashed, written, and with `-v` read back and compared by digest |
| Session.LinkAction | ROM-el2364.py:253-346 | the read, verify and erase actions on a fresh link end as `LinkSession` specifies |
| Session.RunScript | ROM-el2364.py:54-346 | the script, run step by step on a link, ends as `Script` specifies |
| Session.EraseWithAddressRefused | ROM-el2364.py:147-150 | erase with any address among the arguments is a usage error and nothing is sent on the link |
| Session.WriteSessionChecked | ROM-el2364.py:319-326 | with `-v` after a write loop that completed, the range is read back from where the write left the input, and the verdict is the comparison of the two digests |
| Session.WriteThenVerify | ROM-el2364.py:268-326 | against a bridge that writes every byte and answers every read: one write request per byte of the range, then one read request per byte; the hash covers the bytes read back; verification succeeds exactly when the two digests agree, and always when the bytes read back are those written |
| Session.WriteFourBytesResolved | ROM-el2364.py:98-123 | `write -v 0 rom.bin` with a four-byte file resolves to [0, 4) with the flag set and no warning |
| Session.FourBytesRequests | ROM-el2364.py:294-297 | the four-byte write sends the address with the first byte only, and the read-back sends it with the first read only |
| Session.WriteFourBytes | ROM-el2364.py:268-326 | `write -v 0 rom.bin` with a four-byte file writes the four bytes with the address in the first request only, reads them back, and verification succeeds |
| Session.ReadSessionReplies | ROM-el2364.py:253-266 | the read action against a bridge that answers every read sends one request per address; the bytes go to the file when a name is given, and otherwise become one dump line per full 16-byte chunk |
| Session.PastChipResolved | ROM-el2364.py:82-86 | `read fff0 10005` clamps the end to 0x10000 with a warning and reads the last sixteen addresses of the chip |
| Session.ReadPastChip | ROM-el2364.py:196-266 | `read fff0 10005` sends sixteen read requests from 0xFFF0 and prints the bytes as one dump line at address 0xFFF0 |
| Session.VerifyWithoutStart | ROM-el2364.py:131-145 | verify with no address and no file keeps the start unset and reads to 0x10000; the first request cannot encode -1, so nothing is sent and no digest is printed |
| Session.VerifyIgnoresFileContents | ROM-el2364.py:329-336 | verify mode's outcome depends on the file's size only, never on its contents |

## Left out

- The serial port setup (device path, 115200 baud, the 600 s read timeout) is not modelled. The link is the byte stream the bridge sends. A read that times out is a short read, as pyserial returns it.
- The busy wait `while ser.in_waiting < 4` is modelled by its outcome. With fewer than four bytes ever sent it never ends (`NeverReady`). Timing and partial arrival are not modelled.
- SHA-256 is a parameter `sha`, and `hexdigest()` strings are compared as digest values. The model fixes which bytes are hashed and which digests are compared.
- The file system is an input. `PathInfo` says whether the path exists, is a regular file and has a readable size, and gives its contents. The `open()` failures of the read and write actions are not modelled (lines 255-259 and 269-273).
- `int(_, base=16)` is not modelled as a parser. The remaining arguments come already classified as `-v`, an address or a word.
- Arguments.Token: an address is a natural number. `int(_, 16)` also accepts a sign, and the script would store a negative address (and -1 would leave the field "unset"); that case is not modelled.
- Arguments.LowerAscii: lower-cases ASCII letters only. `str.lower` on other characters matters only for a character outside ASCII whose lower-case form starts with one of the action letters.
- `print_progress_bar` is not modelled as text. Its `ZeroDivisionError` on a one-byte range is, as the stop `ProgressDivByZero`.
- Cosmetic output is not modelled: the help text, the `Args:` listing, the byte counts, the file checksum message and "Done!". The dump lines, the diagnostics and the notice lines of the write loop are modelled.
- The `.decode()` of diagnostic text, with its possible `UnicodeDecodeError`, is not modelled. Diagnostics are kept as bytes.
- The `else` branch at lines 313-314 is not modelled. It follows a `while` that only ends on a length byte of 1, so it cannot be reached.
- Erasing twice, and whatever else depends on the chip's own behaviour, is outside the host script and not modelled.
- Session.WriteAction: compares digest values rather than the `hexdigest()` strings. This holds because SHA-256 is a parameter.
