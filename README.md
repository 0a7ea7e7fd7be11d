# usb_dfu_flasher in Dafny

A model of the host-side USB DFU flasher: the command-line tool that finds a device
by its serial-number prefix, halts it, writes a firmware image or a configuration
region to it in chunks (rebooting it first when it runs the firmware to be replaced)
or reads a region back into a file, and the two validators it runs on a region
read back: the key/length/value configuration blob parser and the firmware header
scan with its field-table walk.

The model is split as the program is:

- `bytes.dfy`: bytes, fixed-width integers, little-endian words, C strings, and
  the CRC32 primitive as a parameter (`Crc32`).
- `transport.dfy`: what the program exchanges with libusb. The bus is an input:
  the k-th control transfer gets the k-th scripted reply, and the k-th device list
  fetched is a scripted list. The program's side (`Link`) records every request
  sent, in order.
- `arguments.dfy`: `parse_arg`, with `atoi` and the `(uint32_t)` cast of the chunk.
- `device_match.dfy`: `_strncmp_lwr` (a loop) and the serial-prefix test.
- `protocol.dfy`: `find_usb_device`, the lookups, the write passes, the status
  check and reboot, the read loop and `main`, as functions of the bus and the
  link, with the properties the program promises proved about them.
- `flasher.dfy`: the program itself. It is a class whose fields are the global
  state (`handle`, `list`/`cnt` and the output file). `main`'s loops are methods
  over those fields. Each method is proved equal to the function of `protocol.dfy`
  that specifies it, so every property proved there holds of the program.
- `config_blob.dfy`: the configuration parser of `parser_cfg.c` has three parts:
  - the byte-at-a-time machine as a function `Step`, and its run `Run`;
  - the static `parser` struct as a class `ConfigParser`, with a real
    `name_buffer` array;
  - `parse_data`, the CRC loop and the 32-byte window loop as methods.
- `firmware_image.dfy`: `parse` from `parser_fw.c` as a function; the header scan
  of `parse_file_fw` and `print_fields` as methods.

I/O is replaced by inputs:

- The file opened for writing is a `FileInput`: cannot open, short read, or its
  bytes.
- Whether the k-th `fwrite` of the read loop succeeds is a function `fileOk`.
- The CRC32 function is a parameter.
- Memory read past the end of a buffer (the header copy at `parser_fw.c:64`) is
  an input `overread`.

## Model

| member | source | states |
|---|---|---|
| Bytes.EncodeLeU32 | main.c:358 | the four bytes stored for a uint32_t read back little-endian as that value |
| Bytes.EncodeOfDecode | parser_cfg.c:131 | storing a little-endian word read from memory gives back the same four bytes |
| Bytes.UntilNul | parser_fw.c:99 | the C string at the start of a buffer is its prefix up to the first NUL, which it does not contain |
| Bytes.UntilNulTerminated | parser_cfg.c:87-90 | a NUL-free key followed by its terminator reads back as the key |
| Transport.Received | main.c:98 | an IN transfer delivers as many bytes as it returned, capped at the buffer size |
| Transport.OutDataDecodes | main.c:93-96 | the DNLOAD packet and the UPLOAD setup decode on the device as offset and payload, and as offset and length |
| Arguments.DigitRun | main.c:263 | atoi's digit run is the longest prefix of decimal digits |
| Arguments.AtoiOfDecimal | main.c:263 | atoi reads back the decimal spelling of every number |
| Arguments.ParseArg | main.c:224-276 | arguments are accepted exactly when argc is 5, 6 or 7, the operation is w or r, the selector is p, b, a or c, it is not a PREBOOT write, and the chunk is 1 to 256; the result then carries the words as given |
| Arguments.ChunkWordAccepted | main.c:263-273 | with seven words, operation w or r, any selector and not a PREBOOT write, any decimal spelling of 1 to 256 is accepted as the chunk size |
| DeviceMatch.StrncmpLwr | main.c:69-77 | returns 0 exactly when the first c bytes of both strings are non-NUL and equal up to case, else 1 |
| DeviceMatch.NameMatchesIsCasePrefix | main.c:120-130 | a device is accepted exactly when its serial string is at least as long as the name and starts with it up to case |
| DeviceMatch.MatchIgnoresCase | main.c:74 | two NUL-free strings that differ only in case match each other |
| Protocol.ProbeFindsFirst | main.c:103-130 | the probe stops at the first accepted device, leaving it open; it finds none only when no device is accepted |
| Protocol.FindOutcome | main.c:101-192 | -1 exactly when no device matches, with nothing sent; otherwise the first match is halted first; -2 exactly when the halt fails; 1 exactly when writing, the type query succeeded, the type equals an APP or BOOT selector and the reboot succeeded, after which the handle is closed; -3 when the query or reboot fails; reading returns only -2, -1 or 0 and sends nothing after the halt |
| Protocol.RelookBounded | main.c:322-337 | the retry loop succeeds only with the handle open; it fetches one device list per lookup, at most seven, and exactly seven when it fails |
| Protocol.LookupOpensHandle | main.c:312-343 | the write lookup goes on only with the handle open, after at most eight device lists; the read lookup fetches one list and goes on only with the handle open |
| Protocol.FirstZeroMeans | main.c:322-337 | stopping at the first lookup that returns 0 succeeds exactly when one does, with that first one's link; otherwise it ends on the last lookup's link |
| Protocol.RelookFindsFirstZero | main.c:322-337 | the retry loop from iteration i succeeds exactly when one of its remaining lookups, each on a fresh device list, returns 0, and stops at the first such one with its link; it fails on the link of the last |
| Protocol.LookupOutcome | main.c:312-343 | a first lookup returning 0 goes on at once with its link; any code other than 0 or 1 fails (ERR_REBOOT); after a reboot the write goes on exactly when one of the seven further lookups returns 0. A read goes on exactly when its one lookup returns 0 |
| Protocol.TryWriteRepeats | main.c:363-366 | one chunk is sent between one and five times, always the same packet; it fails only when all five transfers failed, and succeeds with the first accepted transfer |
| Protocol.TryWriteSendsRepeat | main.c:363-366 | an attempt sends its packet as many times in a row as it tried: one to five times when it got through, five when it failed |
| Protocol.ChunksCoverImage | main.c:350-365 | request i of a pass writes at offset i·chunk between 1 and chunk bytes, and the payloads put together are the whole image, in order |
| Protocol.ReliablePassSendsPlan | main.c:350-379 | against a device that accepts every transfer, one pass succeeds and sends exactly the chunk plan |
| Protocol.PassesSendOnlyWrites | main.c:345-382 | the passes send nothing but DNLOAD requests for the selected region, and change neither the handle nor the device list |
| Protocol.EmptyImageWritesNothing | main.c:352-355 | an empty image succeeds at once with no transfer |
| Protocol.PassSendsPlanWithRetries | main.c:350-379 | a pass that succeeds sends every request of the chunk plan in order, each one to five times; one that fails sends a prefix of the plan so, then the next chunk five times |
| Protocol.PassesFindFirstOk | main.c:347-382 | the outer loop makes at most five passes, each from offset 0 on the link the one before left, and returns the first pass that succeeds; it fails, on the last pass's link, only when every pass failed |
| Protocol.PassesSendPlans | main.c:347-382 | every pass sends the whole chunk plan from offset 0 with retries, or a prefix of it and five tries at the chunk where it gave up |
| Protocol.WriteImageCodes | main.c:345-409 | the write path exits with 0, ERR_WR, ERR_CHK or ERR_REBOOT; ERR_WR exactly when all five passes failed, with nothing sent after them; ERR_CHK only for a firmware region, right after the status request; 0 only after a good pass, a fault-free status (firmware regions only, none for the configuration region) and an accepted reboot, which is the last request |
| Protocol.ReadOnce | main.c:91-99 | one dfu_read delivers at most 256 bytes |
| Protocol.ReadOnceSends | main.c:91-99 | dfu_read sends the DFU_UPLOAD setup for its offset, and the IN transfer only when the setup was accepted; it gets nothing exactly when either transfer fails, and otherwise the bytes the IN transfer delivered |
| Protocol.TryReadRepeats | main.c:435-447 | the retries at one offset send only that setup and IN transfers, the IN transfer only right after an accepted setup; at most five setups, exactly five when nothing came back; they get a chunk exactly when the last request is an accepted IN transfer, and the chunk is that transfer's bytes |
| Protocol.TryReadDelivers | main.c:435-447 | among the requests of the retries, the only accepted IN transfer is the last one, and it delivered the chunk they come back with |
| Protocol.ReadStepTracks | main.c:434-470 | one round appends exactly the chunk it got to the file when it goes on, and nothing otherwise; it completes exactly on an empty chunk, fails exactly when the five reads failed or the fwrite fell short, and keeps offset equal to the file length modulo 2^32 |
| Protocol.ReadKeepsOffset | main.c:430-471 | the read loop keeps offset, and readed_length while going or on completion, equal to the file length modulo 2^32, and only ever extends the file |
| Protocol.ReadFileIsDelivered | main.c:430-471 | the file the read loop writes is every chunk the device delivered, in the order it arrived, except a last chunk the file did not take |
| Protocol.ReadEndsOnRound | main.c:430-471 | the read loop ends on a round whose exit code is 0 exactly when the device sent an empty chunk, and 1 exactly when five reads failed or the fwrite fell short |
| Protocol.ParserRunsOnData | main.c:448-471 | the read path exits with 0 or 1; a parser runs exactly when the read completed with a nonzero readed_length, and the configuration parser only for the configuration region |
| Protocol.SessionCodes | main.c:278-475 | main exits only with 0, ERR_ARGC, ERR_FILE, ERR_FILE_READ, ERR_REBOOT, ERR_WR or ERR_CHK. Bad arguments, including a PREBOOT write, exit with ERR_ARGC before any transfer or device list. A file that cannot be opened sends nothing. ERR_WR and ERR_CHK come only from writes, and a parser runs only after a successful read |
| Flasher.Flasher.constructor | main.c:54-58 | the program starts with nothing sent, no device list, no open handle and an empty output file |
| Flasher.Flasher.ControlTransfer | main.c:84-98 | one control transfer gets the next scripted reply and is recorded as sent |
| Flasher.Flasher.GetDeviceList | main.c:312 | fetching a device list replaces the current list with the next scripted one |
| Flasher.Flasher.HandleClose | main.c:60-67 | the handle is closed and nothing else changes |
| Flasher.Flasher.Probe | main.c:103-130 | the device loop ends on the device ProbeFrom specifies, with the handle state it specifies, and sends nothing |
| Flasher.Flasher.FindUsbDevice | main.c:101-192 | returns the code, and leaves the link, that the specification Find gives |
| Flasher.Flasher.LookupWrite | main.c:312-343 | the lookup with its seven retries after a reboot behaves as LookupForWrite |
| Flasher.Flasher.LookupRead | main.c:421-428 | behaves as LookupForRead |
| Flasher.Flasher.WriteChunk | main.c:357-366 | the retry loop on one chunk behaves as TryWrite with five tries, on the packet of the chunk's offset and size |
| Flasher.Flasher.PassChunk | main.c:357-372 | a chunk written moves the pass specification on to the next offset; a chunk that fails ends the pass with that failure |
| Flasher.Flasher.WritePass | main.c:350-379 | one pass behaves as PassFrom from offset 0 |
| Flasher.Flasher.WriteFirmware | main.c:345-409 | the passes, the status check and the reboot give the exit code and link of WriteImage |
| Flasher.Flasher.DfuRead | main.c:91-99 | behaves as ReadOnce: the two transfers, and the bytes delivered or a failure |
| Flasher.Flasher.ReadWithRetries | main.c:435-447 | up to five dfu_read calls at one offset behave as TryRead |
| Flasher.Flasher.FileWrite | main.c:464-465 | a successful fwrite appends the chunk to the file; a failed one leaves the file as it was |
| Flasher.Flasher.FinishRound | main.c:448-470 | the rest of a round updates the counters, the file and how the loop ended as ReadRound says |
| Flasher.Flasher.ReadImage | main.c:430-471 | the read loop's end, offset, readed_length and file are those of ReadFrom from offset 0 |
| Flasher.Flasher.Execute | main.c:278-475 | a run of main on a fresh program gives the exit code, link, file and parser choice of Session |
| ConfigBlob.StepWf | parser_cfg.c:80-120 | one step from a well-formed state never reports KEY_SHORT and stays well formed. A printed entry has a 1 to 31 byte NUL-free key and a nonzero length, and its value is the bytes just consumed |
| ConfigBlob.RunWf | parser_cfg.c:76-123 | a run from a well-formed state never reports KEY_SHORT. Its entries are well formed, lie inside the bytes read and come in blob order |
| ConfigBlob.RunInOrder | parser_cfg.c:103-116 | entries are printed in input order, each ending before the next one starts |
| ConfigBlob.RunSplit | parser_cfg.c:76-123 | bytes fed in one call or in two consecutive calls give the same status, entries and final state |
| ConfigBlob.RunStopsAtError | parser_cfg.c:161-162 | once parse_data reports an error, later bytes change nothing |
| ConfigBlob.WindowSizeIrrelevant | parser_cfg.c:153-165 | feeding the payload in windows of any size gives the same verdict, entries and state as feeding it byte by byte |
| ConfigBlob.PaddingSkipped | parser_cfg.c:82-83 | NUL bytes between entries are skipped as padding |
| ConfigBlob.KeyAccumulates | parser_cfg.c:85-91 | fewer than 32 non-NUL bytes after an entry are collected as the key |
| ConfigBlob.LongestKeyAccepted | parser_cfg.c:86-90 | a key of 31 non-NUL bytes and its NUL is accepted |
| ConfigBlob.KeyTooLongRejected | parser_cfg.c:88 | a 32nd non-NUL key byte gives KEY_LONG |
| ConfigBlob.KeyRead | parser_cfg.c:82-91 | a key of 1 to 31 non-NUL bytes and its NUL moves the machine to the length with that key |
| ConfigBlob.LengthDecoded | parser_cfg.c:93-100 | the two bytes after the key are the little-endian length; zero gives LENGTH_DATA_ZERO, otherwise the value starts just after them |
| ConfigBlob.ValuePending | parser_cfg.c:103-104 | inside a value the machine prints nothing and keeps its state |
| ConfigBlob.ValueDone | parser_cfg.c:103-116 | the value phase consumes exactly length_data bytes, then prints the entry and resets the whole state |
| ConfigBlob.ValueRead | parser_cfg.c:103-116 | the value of a read key is printed with its key, length, bytes and offset |
| ConfigBlob.DecodesOneEntry | parser_cfg.c:82-116 | key, NUL, nonzero length and value bytes decode to exactly that entry, at the absolute offset just after the length, and leave the machine ready for the next |
| ConfigBlob.SilentPrefix | parser_cfg.c:76-123 | a run that printed nothing may be skipped: the rest starts from the state it reached |
| ConfigBlob.AsWrittenGuardAdmitsOverread | parser_cfg.c:136-138 | the size check as written accepts a 12-byte buffer declaring 8 payload bytes, which needs 16 |
| ConfigBlob.CorrectedGuardIsWrittenGuardInBounds | parser_cfg.c:136-138 | the corrected check accepts exactly the sizes the written check accepts whose payload and CRC word lie inside the buffer |
| ConfigBlob.ParseSpec | parser_cfg.c:125-173 | the possible verdicts of parse. WRONG_SIZE_CONFIG exactly when the size is rejected. CRC_INVALID exactly when the stored CRC differs from the CRC of the size field and payload, and both print nothing. Printed entries are well formed, in order, and within the payload |
| ConfigBlob.ConfigParser.constructor | parser_cfg.c:54 | the static struct starts zeroed |
| ConfigBlob.ConfigParser.Clear | parser_cfg.c:115 | memset leaves the initial state |
| ConfigBlob.ConfigParser.Consume | parser_cfg.c:80-120 | one pass of the switch on the struct is one Step of the machine |
| ConfigBlob.ConfigParser.ParseData | parser_cfg.c:76-123 | parse_data on a window is the run of the machine over that window's absolute offsets |
| ConfigBlob.StreamCrc | parser_cfg.c:132-145 | the word-by-word CRC loop gives the CRC of the size field followed by the payload |
| ConfigBlob.ParsePayload | parser_cfg.c:151-172 | the window loop gives the first error, or PARSER_NOT_FINISHED when the payload ends inside an entry, with the entries printed on the way |
| ConfigBlob.ParseConfig | parser_cfg.c:125-173 | parse gives the verdict and entries of ParseSpec |
| FirmwareImage.SizeLock | parser_fw.c:66-69 | LOCK_BY_SIZE_SMALL exactly when fw_size does not pass the header end, which wins over LOCK_BY_ADDR; LOCK_BY_ADDR exactly when fw_size exceeds the image otherwise |
| FirmwareImage.CrcInput | parser_fw.c:72-73 | the CRC covers the image before the header and after it up to fw_size, leaving the header out |
| FirmwareImage.Parse | parser_fw.c:61-76 | parse returns only NONE, CRC, ADDR or SIZE_SMALL. Each of the lock reasons holds exactly under the conditions the checks state, and a bad CRC counts only once both size checks pass |
| FirmwareImage.OverreadHeaderRejected | parser_fw.c:64-69 | a header read past the image end is rejected by a size check whatever memory holds |
| FirmwareImage.PassingHeaderInside | parser_fw.c:66-75 | a passing header lies inside the image, its fw_size fits, and its CRC matches |
| FirmwareImage.ReservedIgnored | parser_fw.c:61-76 | the reserved header word does not affect the verdict |
| FirmwareImage.ScanHeaders | parser_fw.c:133-146 | the scan finds the first offset from 4 whose header passes, below 0x800 or the file size, or reports that none passes |
| FirmwareImage.FieldRegionSize | parser_fw.c:150 | the field region runs from fields_addr_offset to the file end, and is empty when the offset lies past it |
| FirmwareImage.StrEnd | parser_fw.c:99 | strlen in the region stops at the first NUL or at the region end |
| FirmwareImage.WalkIsFieldPairs | parser_fw.c:80-104 | the counter loop prints exactly the key/value pairs of the field table |
| FirmwareImage.PrintFields | parser_fw.c:78-105 | print_fields prints exactly the pairs of the field table in its region |
| FirmwareImage.PrintStep | parser_fw.c:82-103 | one pass of the loop body updates the counters as the walk specifies |
| FirmwareImage.FieldPairsWellFormed | parser_fw.c:94-100 | every printed key is a non-empty NUL-free string; every printed value is NUL-free, and may be empty |
| FirmwareImage.OneFieldExample | parser_fw.c:82-104 | the region "product\0Widget\0\0" prints exactly the one pair (product, Widget) |
| FirmwareImage.ParseFileFw | parser_fw.c:131-152 | the first passing header offset and the fields of its table. Nothing is printed when no offset below 0x800 or the file size passes |

## Left out

- libusb initialisation, option setting, `libusb_free_device_list` and `libusb_close`: they are foreign calls. The bus answers, and the contents of each device list, are inputs.
- Which sub-fields of the device descriptor a device has: a device is reduced to whether its descriptor can be read, whether it opens, and its serial string. The 256-byte serial buffer, which cuts the string at 255 bytes, is not modelled: the serial string is the one the device reports.
- File loading (`fopen`, `file_len`, `fread`): the whole-file result is an input. So is the 4 GiB limit on images, which are required to be shorter than 2^32 bytes.
- `fwrite` is all-or-nothing per chunk: a partial write is treated as a failed one.
- The file loading halves of `parse_file_cfg` and `parse_file_fw`, the table printing, `err2str`, the hex dump and every `fprintf`. These are output only. Entries and field rows are returned as sequences.
- `percent_tracker.h`: floating-point progress and wall-clock time.
- `delay_ms`, `timedate.h`: sleeping only.
- `on_exit_cb`/`atexit` cleanup at process exit.
- The CRC32 algorithm: `crc32.h` only declares it. Every CRC check takes the function that maps the bytes fed since `crc32_start` to the value `crc32_end` returns.
- Flasher.Flasher.ReadImage: the read loop of main.c:432 has no bound. The model takes at most `fuel` rounds; a run that has not ended by then is reported as `Unfinished`, with exit code 1.
- Flasher.Flasher.WritePass: `off` is unbounded. With images shorter than 2^32 bytes, the uint32_t `off += chunk` of main.c:350 wraps only for images within one chunk of 4 GiB, which the model does not cover.
- The `fw_sts` bytes when the status request of main.c:388 fails are uninitialised memory. The model takes them from the scripted reply's data whatever its status.
- The one-byte `fw_type` (main.c:154-155) is read only when the transfer returned at least one byte. Otherwise it keeps its initial 0.
- FirmwareImage.StrEnd: strlen and `%s` in print_fields (parser_fw.c:94-100) read on past the end of the file buffer when the last string has no NUL. The model stops every string at the region end instead, because the memory beyond the buffer is not part of this model.
- FirmwareImage.ScanHeaders: the scan requires the file to be shorter than 2^32 bytes. With a file of 4 GiB or more, the uint32_t `offset` of parser_fw.c:136-137 wraps before reaching the file size, and the scan runs until a header passes; the model leaves such files out, as it does for the images it writes.
- FirmwareImage.ParseFileFw: requires a file shorter than 2^32 bytes, for the reason given for ScanHeaders.
- FirmwareImage.PrintFields: prints strings cut at the region end, as StrEnd does, where the source reads on past the buffer.
- Arguments.Atoi: digits are read as an unbounded number and then cut to 32 bits by the `(uint32_t)` cast. For a spelling beyond the range of `long`, glibc's `atoi` clamps instead; C leaves that case undefined.

## Findings

| source | as written | input that shows it | evidently intended | confidence | as-written member | corrected member |
|---|---|---|---|---|---|---|
| parser_cfg.c:136-138 | `size_config > DATA_OFFSET + content_length + 4` admits sizes up to `content_length + 8`. The payload read at :143 and the CRC read at :148 then run past the buffer | a 12-byte buffer whose first word is 8: accepted. The payload and CRC word need 16 bytes | `DATA_OFFSET + size_config + 4 <= content_length` | not executed | ConfigBlob.AsWrittenGuardAdmitsOverread | ConfigBlob.CorrectedGuardIsWrittenGuardInBounds |
