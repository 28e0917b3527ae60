# Debug trace formatter and USB CDC stdio redirection, in Dafny

This project models two parts of a small embedded firmware library.

1. **The debug trace facility** (`utils/px_dbg.c`). It covers:
   - log lines at three severities (error, warning, info), each with a prefix of the form "level letter, optional timestamp, file name, line number";
   - bare formatted traces;
   - raw hex traces of a byte buffer;
   - 16-bytes-per-row hex dumps with an ASCII column.

   Every entry point pushes characters one at a time into a sink. Here the sink is "append to a sequence of characters", so each entry point is a pure function from its inputs to the characters it emits. All formatted output passes through one static scratch buffer of `PX_DBG_CFG_BUF_SIZE` characters:
   - `vsnprintf` renders into the buffer;
   - the last slot is forced to NUL;
   - the buffer is emitted up to its first NUL.

   The model keeps that rule for every `printf` the module makes. That means the caller's message, the `"%s %u : "` of the log prefix, and every `"%02hX "` of a data trace or hex dump.
2. **The USB CDC stdio redirection** (`arch/arm/stm32/px_usb_cdc_stdio.h`). The model follows the header's doc comments; the implementation file and its circular-buffer library are not modelled. It has:
   - Two bounded FIFOs, receive and transmit, seen from outside as the bytes they hold (oldest first) and a capacity.
   - Each operation maps the state before a call to its result and the state after it.
   - `put_char` turns a line feed into carriage return plus line feed.
   - Non-blocking reads and writes report an empty or full buffer.
   - The bulk transmit fetch returns how many bytes it took.

Files:

| file | module | contents |
|---|---|---|
| `types.dfy` | `Types` | `byte`, `uint16`, `Option`, `Min` |
| `dbg_text.dfy` | `DbgText` | C strings up to the NUL; `%u` and `%02hX`, each with its parser |
| `dbg.dfy` | `Dbg` | the scratch buffer, `put_str`, log prefix, log lines, trace, data trace |
| `dbg_hexdump.dfy` | `DbgHexdump` | the hex dump: the loops, row layout, row placement, total length |
| `cdc_stdio.dfy` | `CdcStdio` | the two FIFOs and the nine operations of the header, plus stream-level lemmas |

## Model

| member | source | states |
|---|---|---|
| DbgText.UntilNul | utils/px_dbg.c:67-73 | The C string of a buffer is a NUL-free prefix of it that ends at the buffer's end or just before a NUL. |
| DbgText.Decimal | utils/px_dbg.c:170 | "%u" prints a canonical numeral (non-empty, digits only, no leading zero) whose value is the number printed. |
| DbgText.DecimalCanonical | utils/px_dbg.c:170 | Every canonical numeral is what "%u" prints for its value, so printing and parsing are inverse both ways. |
| DbgText.Hex2 | utils/px_dbg.c:259 | "%02hX" prints exactly two upper-case hex digits that denote the byte. |
| DbgText.HexPairCanonical | utils/px_dbg.c:298 | Every pair of upper-case hex digits is what "%02hX" prints for the byte it denotes. |
| Dbg.Bounded | utils/px_dbg.c:112-120 | The text emitted through the scratch buffer is a NUL-free prefix of the rendered text of at most size-1 characters. It stops only at the buffer limit, at the end of the text, or at a NUL. |
| Dbg.BoundedUnique | utils/px_dbg.c:112-120 | That description is complete: any text meeting it is the emitted text. |
| Dbg.BoundedFits | utils/px_dbg.c:112-120 | NUL-free text of at most size-1 characters is emitted unchanged. |
| Dbg.Vsnprintf | utils/px_dbg.c:115 | After vsnprintf, the buffer keeps the rendered text's first min(len, size-1) characters, then a NUL. |
| Dbg.TraceVargs | utils/px_dbg.c:112-120 | Forcing the last slot to NUL and emitting up to the first NUL yields the bounded text, whatever the static buffer held before. |
| Dbg.PutStr | utils/px_dbg.c:67-73 | The put_str loop appends exactly the characters before the first NUL, in order, and nothing else. |
| Dbg.LogPrefix | utils/px_dbg.c:132-172 | The prefix is the level letter, a space, the timestamp part (empty without a hook), then "name line : " through the scratch buffer. Its length is bounded by the buffer size. |
| Dbg.TimestampText | utils/px_dbg.c:154-163 | Without a hook the timestamp part is empty. With one, it is the hook's text through the scratch buffer (forced NUL, emitted up to the first NUL), then one space. |
| Dbg.LogPrefixLayout | utils/px_dbg.c:137-171 | Without a timestamp hook and with room in the buffer, the prefix is exactly: letter, space, name, space, decimal line, " : ". |
| Dbg.LogInfo | utils/px_dbg.c:175-193 | An info line starts with "I ", holds the prefix and then the bounded message, and ends with one newline. |
| Dbg.LogWarn | utils/px_dbg.c:195-213 | A warning line starts with "W ", holds the prefix and then the bounded message, and ends with one newline. |
| Dbg.LogErr | utils/px_dbg.c:215-233 | An error line starts with "E ", holds the prefix and then the bounded message, and ends with one newline. |
| Dbg.Trace | utils/px_dbg.c:235-247 | A bare trace is the message through the scratch buffer: a NUL-free prefix of the rendered message of at most size-1 characters that stops only at the buffer limit, the end, or a NUL. No prefix and no newline are added. |
| Dbg.LogLineIsPrefixedTrace | utils/px_dbg.c:175-247 | A log line is the prefix, then the bare trace of the same message, then "\n". |
| Dbg.HexField | utils/px_dbg.c:259 | A hex field through the scratch buffer is exactly the first min(3, size-1) characters of "XX ". |
| Dbg.BoundedNoNul | utils/px_dbg.c:112-120 | NUL-free text is cut at the buffer limit and nowhere else. |
| Dbg.HexFieldFits | utils/px_dbg.c:259 | With a buffer of four slots or more, a hex field is the whole "XX ". |
| Dbg.TraceData | utils/px_dbg.c:249-262 | The data-trace loop emits one hex field per byte, in input order. With a buffer of four slots or more, that is 3n characters, byte k at 3k as two hex digits and a space. |
| Dbg.TraceDataLayout | utils/px_dbg.c:249-262 | The data trace of n bytes is 3n characters, and byte k's two hex digits and space sit at 3k. |
| Dbg.TraceDataRoundTrip | utils/px_dbg.c:249-262 | Reading the data trace back, two hex digits per three characters, yields the traced bytes. |
| DbgHexdump.TraceHexdump | utils/px_dbg.c:264-338 | The nested loops of the hex dump emit exactly the dump: its rows, in order, each preceded by the empty line its offset calls for. |
| DbgHexdump.TraceBlankAndRow | utils/px_dbg.c:272-336 | One pass of the outer loop emits the empty line when the offset is a non-zero multiple of 64, then the row at that offset. |
| DbgHexdump.TraceRow | utils/px_dbg.c:279-336 | The inner loops emit the row at the offset: hex column, ASCII column, newline. |
| DbgHexdump.TraceHexColumn | utils/px_dbg.c:283-310 | The first inner loop emits the 16 hex fields, with a space before fields 4, 8 and 12. |
| DbgHexdump.TraceAsciiColumn | utils/px_dbg.c:313-335 | The second inner loop emits the 16 ASCII entries. |
| DbgHexdump.RowCount | utils/px_dbg.c:270 | The outer loop runs ceil(n/16) times: the smallest r with 16r >= n. |
| DbgHexdump.FirstRowsAt | utils/px_dbg.c:270-280 | Row r of the dump is the row for byte offset 16r. |
| DbgHexdump.HexColumnLayout | utils/px_dbg.c:283-310 | Hex field j of a row sits at 3j + j/4. The characters before fields 4, 8 and 12 are spaces. The column's length follows. |
| DbgHexdump.HexSlot | utils/px_dbg.c:283-310 | Later fields never move an earlier one: field j sits at 3j + j/4 in any longer column. |
| DbgHexdump.HexGap | utils/px_dbg.c:286-290 | The character before field j (j a non-zero multiple of four) is the group space. |
| DbgHexdump.HexCellsFit | utils/px_dbg.c:292-308 | With a buffer of four slots or more, a field is "XX " for a byte in the data and three spaces past its end. |
| DbgHexdump.AsciiColumnLayout | utils/px_dbg.c:313-335 | The ASCII column has one entry per position, in order. |
| DbgHexdump.RowTextLayout | utils/px_dbg.c:282-336 | A row of 16 three-character fields and 16 ASCII entries is 68 characters. The fields sit at 3j + j/4, the ASCII entries at 51 + j, and the newline at 67. |
| DbgHexdump.RowLayout | utils/px_dbg.c:282-336 | A row is 68 characters: field j is the byte's hex digits and a space, or three spaces past the data; the group gaps are spaces; ASCII entry j is the byte itself when in 32..127 (127 included), '.' for other bytes, a space past the data; the newline is last. |
| DbgHexdump.RowsOfLength | utils/px_dbg.c:270-336 | Every row of a dump is 68 characters. |
| DbgHexdump.JoinLength | utils/px_dbg.c:270-277 | r rows of 68 characters, with the empty lines between them, take 68r + (r-1)/4 characters. |
| DbgHexdump.JoinPrefix | utils/px_dbg.c:270-337 | Output is only ever appended: the first r rows are a prefix of the first r' rows. |
| DbgHexdump.HexDumpLength | utils/px_dbg.c:270-337 | The dump of n bytes has 68·ceil(n/16) + (n-1)/64 characters, or none when n = 0. |
| DbgHexdump.RowPlacement | utils/px_dbg.c:270-277 | Row r sits at 68r + r/4, and the first row starts the output. Row r follows row r-1 with one empty line between them exactly when r is a multiple of four, i.e. its offset is a non-zero multiple of 64. Otherwise the two rows are adjacent. |
| DbgHexdump.JoinPlacement | utils/px_dbg.c:270-277 | In joined 68-character rows, row r sits at 68r + r/4, preceded by a newline when r is a non-zero multiple of four. |
| DbgHexdump.JoinHead | utils/px_dbg.c:270-277 | The rows before row r and the empty line before it take 68r + r/4 characters. |
| DbgHexdump.JoinBlank | utils/px_dbg.c:272-277 | The character just before row r, for r a non-zero multiple of four, is the empty line's newline. |
| CdcStdio.Push | arch/arm/stm32/px_usb_cdc_stdio.h:120-128 | Appending to a buffer succeeds exactly when it is not full. A refused byte leaves the buffer unchanged. Occupancy never exceeds capacity. |
| CdcStdio.Pop | arch/arm/stm32/px_usb_cdc_stdio.h:103-111 | Taking from a buffer yields its oldest byte exactly when it is non-empty. An empty buffer is left unchanged. |
| CdcStdio.Init | arch/arm/stm32/px_usb_cdc_stdio.h:73-79 | Both buffers start empty. |
| CdcStdio.WrU8 | arch/arm/stm32/px_usb_cdc_stdio.h:120-128 | wr_u8 returns true and appends the byte exactly when tx has room. Otherwise it returns false and the whole state is unchanged. rx is never touched. |
| CdcStdio.PutChar | arch/arm/stm32/px_usb_cdc_stdio.h:81-91 | put_char always returns 0. With room, a line feed queues CR then LF, and any other byte queues itself. rx is never touched. |
| CdcStdio.RdU8 | arch/arm/stm32/px_usb_cdc_stdio.h:103-111 | rd_u8 returns the oldest received byte and removes it exactly when rx is non-empty. Otherwise it reports nothing and leaves the state unchanged. tx is never touched. |
| CdcStdio.GetCharIsRdU8 | arch/arm/stm32/px_usb_cdc_stdio.h:93-111 | Once a byte has arrived, get_char and rd_u8 agree: the same byte, the same state after. That byte is the first one draining rx yields, i.e. the oldest arrival. |
| CdcStdio.GetChar | arch/arm/stm32/px_usb_cdc_stdio.h:93-101 | Once a byte has been received, get_char returns the oldest one and removes it. |
| CdcStdio.OnRxByte | arch/arm/stm32/px_usb_cdc_stdio.h:113-118 | A received byte is appended to rx. tx is never touched. |
| CdcStdio.OnRxData | arch/arm/stm32/px_usb_cdc_stdio.h:130-136 | Received bytes are appended to rx in order, as far as rx has room. tx is never touched. |
| CdcStdio.GetTxByte | arch/arm/stm32/px_usb_cdc_stdio.h:138-146 | get_tx_byte returns the oldest queued byte and removes it exactly when tx is non-empty. Otherwise it reports nothing and leaves the state unchanged. |
| CdcStdio.GetTxData | arch/arm/stm32/px_usb_cdc_stdio.h:148-157 | get_tx_data returns k ≤ n bytes: the first k queued, in order, and removed. It returns fewer than n only when tx ran empty. |
| CdcStdio.TranslateRoundTrip | arch/arm/stm32/px_usb_cdc_stdio.h:47-48 | Line-feed translation is lossless: dropping each CR that precedes an LF recovers the written bytes. |
| CdcStdio.PutString | arch/arm/stm32/px_usb_cdc_stdio.h:45-48 | Writing a string byte by byte through put_char never touches rx and keeps both buffers within capacity. |
| CdcStdio.PutStringQueuesTranslation | arch/arm/stm32/px_usb_cdc_stdio.h:45-48 | With room, writing a string queues exactly its wire image, every LF as CR LF, behind what was queued. |
| CdcStdio.ReadAll | arch/arm/stm32/px_usb_cdc_stdio.h:103-111 | Reading with rd_u8 until it reports empty never touches tx. |
| CdcStdio.ReadAllIsFifo | arch/arm/stm32/px_usb_cdc_stdio.h:103-111 | The receive side is first in, first out: draining it yields the queued bytes in arrival order and empties it. |
| CdcStdio.RxDeliveredInOrder | arch/arm/stm32/px_usb_cdc_stdio.h:130-136 | Bytes received are read back in arrival order, behind those already waiting, whatever is written in between. |
| CdcStdio.WrittenTextReachesDriver | arch/arm/stm32/px_usb_cdc_stdio.h:148-157 | What the application writes reaches the driver's bulk fetch as its wire image, in order, and the fetch empties tx. |

## Left out

- `vsnprintf` rendering is foreign libc code. The rendered message is an opaque input string; only the truncation and NUL rule is modelled.
- Two renderings are spelled out instead: `"%s %u : "`, as the name up to its NUL and the model's `%u` (DbgText.Decimal), and `"%02hX "`, as DbgText.Hex2 and a space.
- The model follows the non-AVR build (`PX_COMPILER_GCC_AVR` undefined). The AVR build emits different characters in two places. It sends the log prefix's name through `px_dbg_put_str_P` (utils/px_dbg.c:166-168), so the name is never truncated; the model truncates it as part of `"%s %u : "`. It sends the hex dump's `"   "` placeholder through `px_dbg_printf_P` (utils/px_dbg.c:304-305), so a small buffer truncates it; the model emits it whole, as `px_dbg_put_str` does (utils/px_dbg.c:307).
- The AVR program-memory variants (`px_dbg_put_str_P`, `px_dbg_trace_vargs_P`, `px_dbg_printf_P`) are left out. Apart from the two differences above, they emit the same characters through a flash-read call that is not part of this model.
- The `PX_DBG_CFG_TIMESTAMP` hook is external code. Its output is an optional opaque string, emitted through the scratch buffer and followed by a space.
- The `PX_DBG_CFG_PUT_CHAR` / `putchar` sink is external. It is modelled as appending to the output sequence.
- `PX_DBG_CFG_BUF_SIZE` lives in a configuration header that is not part of this model. It is a parameter of at least 1.
- The severity constants' numeric values are not visible. The level is a three-valued datatype, so the "any other value prints 'I'" branch is the `Info` case.
- Dbg.LogPrefix: the character-by-character layout (LogPrefixLayout) is proved only without a timestamp hook and when "name line : " fits the buffer. In general the contract states the timestamp part exactly and "name line : " in its bounded form.
- DbgHexdump.RowLayout: the column layout and the total length (HexDumpLength, RowsOfLength) are proved for buffers of four slots or more. With a smaller buffer each hex field is cut short; TraceHexdump still computes that output exactly.
- arch/avr/tutorials/06_pwm/pwm.c: only hardware register writes and an idle loop, with nothing to state.
- The circular-buffer library and the USB CDC driver behind the header are not part of this model. Each buffer is a bounded sequence with a capacity parameter.
- Interrupt versus mainline concurrency and `volatile` visibility cannot be expressed in a sequential model. Each call is one atomic step.
- CdcStdio.GetChar: the busy-wait is a precondition that rx is non-empty.
- CdcStdio.PutChar: the contract states only what happens when tx has room for the whole translation. The header does not say what happens when tx fills mid-translation. The body passes each byte to wr_u8 and ignores a refusal, so a refused byte is dropped.
- CdcStdio.OnRxByte: the header does not say what happens when rx is full. The model drops the byte and leaves the state unchanged. OnRxData follows, keeping the first bytes that fit.
- CdcStdio.OnRxData: `nr_of_bytes` is a `uint16_t`, so the data is shorter than 65536 bytes.
