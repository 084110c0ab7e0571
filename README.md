# GPUTFT shell, terminal and display-link logic in Dafny

This project models the sequential logic that the GPUTFT firmware (an STM32
board driving a TFT display over USART1, with a FreeRTOS/Micrium shell) builds
on top of its byte channels. Each part is proved against a specification.

- **ShellArgs** (`shell_args.dfy`) holds the shared vocabulary: bytes, NUL and
  the line ending, the four parse statuses, and how one argv entry reads
  (positional, `--long` or `-short`).
- **RingCmd** (`ring_cmd.dfy`) covers the `ring_*` shell command group of
  `ringBuf_cmd.c`:
  - the argument parser `RingCmd_CmdArgParse`;
  - the output helpers `RingCmd_OutputMsg`, `RingCmd_OutputError` and
    `RingCmd_OutputCmdTbl`, which chain calls to the shell's `out_fnct`
    through the `RING_CMD_OUT_MSG_CHK` macro;
  - the parse-status dispatch of `ring_buf_init`, `RingCmd_Write`, `Ring_Read`
    and `RingCmd_Help`;
  - the two static counters of `ring_test_dlist`.
- **ShellOutput** (`shell_output.dfy`) gives the meaning of such output chains.
  - A plan is a tree of writes and checked helper calls.
  - `Run` runs a plan against a callback whose n-th return value is an oracle.
    It returns the chunks written, the value returned and whether the run
    reached its end.
  - `OutPort` is the callback as an object that logs every chunk handed to it.
- **RingBufTest** (`ring_buf_test.dfy`) covers two functions of `ring_buf_test.c`.
  - `ClkCmd_CmdArgParse` writes a time type and three positional pointers into
    a `ClkCmdArg` object. It is proved equal to a loop-free description, `ClkParse`.
  - `Terminal_fc` lists the circular terminal history, wrapping the index at
    the number of items and numbering the entries.
- **GpuTask** (`gpu_task.dfy`) covers `GPU_Send_RdLine`. It reads bytes into a
  NUL-terminated buffer at a cursor, in place on an array, and echoes what it
  accepts.
- **GpuSerial** (`gpu_serial.dfy`) covers the USART1 link to the display:
  - `GPU_TFT_send_byte`;
  - the Tx/Rx-complete callbacks, which release binary tokens;
  - the send-and-await-"OK" retry loop `GPU_tx_and_rx_hand`. Its environment
    is an oracle that says, per attempt, what the HAL calls return and which
    two bytes arrive. Its calls are recorded in a trace.
- **ShellApp** (`shell_app.dfy`) covers the stream-buffer demo of `shell_app.c`:
  - the interrupt-side sender `vBasicStreamBufferSendFromISR`;
  - the 'H'…'S' frame scanner of the receiving task, `prvReceivingTask`;
  - the byte filters `TerminalSerial_RdByte` and `GPU_Serial_RdByte`;
  - the forwarding step of `HAL_UART_RxCpltCallback`.

The environment is a parameter wherever the source calls code that is not part
of this model: the shell's output callback, the HAL UART driver, the RTOS
semaphores and stream buffers. Each interrupt or task step is one atomic method
call.

## Model

| member | source | states |
|---|---|---|
| ShellArgs.Form | userCode/RingBuffer/ringBuf_cmd.c:713-714 | An argument is an option exactly when it starts with '-'. A long option is "--" followed by its name. A short option is "-" followed by a name that does not start with '-'. |
| ShellArgs.FirstOption | userCode/RingBuffer/ringBuf_cmd.c:712-713 | The index found is the first option at or after i: everything before it is positional. It is \|argv\| when there is no option. |
| RingCmd.RingCmdArgParse | userCode/RingBuffer/ringBuf_cmd.c:708-710 | The result is EMPTY exactly when argc == 1. |
| RingCmd.RingScan | userCode/RingBuffer/ringBuf_cmd.c:712-749 | The loop never yields EMPTY. |
| RingCmd.RingParseByFirstOption | userCode/RingBuffer/ringBuf_cmd.c:712-749 | For argc != 1, the first argument starting with '-' alone decides the result. With no such argument the result is SUCCESS, also for argc == 0. |
| RingCmd.RingParseIgnoresLaterArgs | userCode/RingBuffer/ringBuf_cmd.c:712-749 | Two argument vectors of the same count that agree up to the first option parse alike. |
| RingCmd.RingOptionMapping | userCode/RingBuffer/ringBuf_cmd.c:715-745 | For argc >= 2 and the first argument starting with '-', the parse is HELP exactly when it is "--help" or "-h", or "--write" with argc == 2. It is SUCCESS exactly when it is "--read", "-r" or "-w", or "--write" with argc > 2. It is INVALID_ARG exactly when it is none of these six strings. |
| RingCmd.ShortWriteNeedsNoData | userCode/RingBuffer/ringBuf_cmd.c:720-740 | "cmd -w" parses as SUCCESS with no data after it. "cmd --write" with nothing before it parses as HELP. |
| ShellOutput.RunWritesPrefix | userCode/RingBuffer/ringBuf_cmd.c:262-274 | When SHELL_EXEC_ERR is itself a failure code, the chunks written are a prefix of the plan, in plan order. A run that completes writes the whole plan. A run that stops returns SHELL_EXEC_ERR. |
| ShellOutput.RunStopsAtFirstFailure | userCode/RingBuffer/ringBuf_cmd.c:262-274 | The first failing call of out_fnct stops all further output at every nesting level. The chunks written are those up to and including the failing one, and the result is SHELL_EXEC_ERR. |
| ShellOutput.RunAllTransmitted | userCode/RingBuffer/ringBuf_cmd.c:262-274 | When every call transmits something, every chunk of the plan is written in order. The result is the starting count plus the sum of all replies. |
| ShellOutput.NestedFailureNotRecognised | userCode/RingBuffer/ringBuf_cmd.c:262-274 | When SHELL_EXEC_ERR is not a failure code, a failure inside a helper is added to its caller's count, and the caller goes on writing. |
| ShellOutput.TextDelivered | userCode/RingBuffer/ringBuf_cmd.c:262-274 | Against a callback that reports every octet it is handed, a plan of non-empty chunks runs to its end. It returns the number of octets of its text. |
| ShellOutput.TotalReportsLength | userCode/RingBuffer/ringBuf_cmd.c:262-274 | Against such a callback, the sum of the replies is the length of the concatenated text. |
| ShellOutput.RunAppend | userCode/RingBuffer/ringBuf_cmd.c:262-274 | Running two plans one after the other equals running their concatenation. The second starts where the first left off, unless the first stopped. |
| ShellOutput.RunStopped | userCode/RingBuffer/ringBuf_cmd.c:262-274 | Nothing after a stopped run is written or counted. |
| ShellOutput.OutPort.Out | userCode/RingBuffer/ringBuf_cmd.c:900-902 | One call of out_fnct appends its chunk to the log. It returns the oracle's answer for that call number. |
| RingCmd.OutputMsg | userCode/RingBuffer/ringBuf_cmd.c:886-932 | The log grows by exactly the chunks that running the plan writes, and the result is the run's value. The plan is: newline if new_line_start, tab if tab_start, the message, newline if new_line_end. |
| RingCmd.MsgStepsRun | userCode/RingBuffer/ringBuf_cmd.c:897-928 | The four checked steps of RingCmd_OutputMsg equal the run of its plan. |
| RingCmd.OutputMsgDelivered | userCode/RingBuffer/ringBuf_cmd.c:897-928 | Against a callback that reports what it is handed, the text is the optional newline, optional tab, message and optional newline. The value returned is its number of octets. |
| RingCmd.OutputError | userCode/RingBuffer/ringBuf_cmd.c:833-862 | "Error: " after a newline, then the error and a newline, as two checked helper calls. The result is SHELL_EXEC_ERR at the first failure, else the sum of both counts. |
| RingCmd.Listed | userCode/RingBuffer/ringBuf_cmd.c:795-812 | The names listed are those of the table entries before the first entry with a null function, in table order. |
| RingCmd.NamesPlan | userCode/RingBuffer/ringBuf_cmd.c:795-802 | One tab-indented line per name, in order. |
| RingCmd.OutputCmdTbl | userCode/RingBuffer/ringBuf_cmd.c:769-815 | The header, then one line per listed name. The result is SHELL_EXEC_ERR at the first failing write, else the header count plus each name's count. |
| RingCmd.CmdTblStep | userCode/RingBuffer/ringBuf_cmd.c:795-812 | One loop step is the check of the next name's line. When it stops, the whole table's run stops there. |
| RingCmd.RingCmdHelp | userCode/RingBuffer/ringBuf_cmd.c:445-460 | Lists Ring_CmdTbl through RingCmd_OutputCmdTbl. |
| RingCmd.RingCmds.RingBufInit | userCode/RingBuffer/ringBuf_cmd.c:332-415 | EMPTY and SUCCESS create the ring buffer and report the outcome. INVALID_ARG reports the error. HELP prints the usage. Only the creation flag changes. |
| RingCmd.RingCmds.RingCmdWrite | userCode/RingBuffer/ringBuf_cmd.c:464-556 | SUCCESS reports the write and then the (null) data line. INVALID_ARG reports the error. EMPTY and HELP print the usage. |
| RingCmd.RingCmds.RingRead | userCode/RingBuffer/ringBuf_cmd.c:601-667 | SUCCESS reports the command as unfinished. INVALID_ARG reports the error. EMPTY and HELP print the usage. |
| RingCmd.CommandsDeliverText | userCode/RingBuffer/ringBuf_cmd.c:332-667 | Against a callback that reports what it is handed, ring_buf_init, Ring_Read, ring_test_dlist and a non-succeeding RingCmd_Write print their whole text. Each returns its length in octets. |
| RingCmd.WriteSuccessHandsOverEmptyData | userCode/RingBuffer/ringBuf_cmd.c:529-536 | On SUCCESS RingCmd_Write hands out_fnct the null data pointer as an empty chunk. A callback that reports 0 for it fails that line after its leading newline. |
| RingCmd.RingCmds.RingTestDlist | userCode/RingBuffer/ringBuf_cmd.c:560-598 | Both counters step. The completion message is written, and the result is 1 whatever the output did. |
| RingCmd.BitAnd1 | userCode/RingBuffer/ringBuf_cmd.c:580 | `x & 1u` on an octet is x mod 2. |
| RingCmd.TestCountersCycle | userCode/RingBuffer/ringBuf_cmd.c:575-580 | After n calls Test_data is n mod 101: it counts 1..100, then wraps to 0. Test_Flag is n mod 2: it alternates. |
| RingBufTest.FormatOf | userCode/ring_buf_test.c:477-526 | "--datetime"/"-d", "--ntp"/"-n" and "--unix"/"-u" select DATETIME, NTP and UNIX respectively, each in both directions. Nothing else selects a format. |
| RingBufTest.StopAt | userCode/ring_buf_test.c:477-524 | The index found is the first option that is not a format, or \|argv\|. |
| RingBufTest.PositionalsBounded | userCode/ring_buf_test.c:504-523 | Every index listed is a positional argument of the range. |
| RingBufTest.PositionalsIncreasing | userCode/ring_buf_test.c:504-523 | The indices are listed in increasing order, so the pointers are filled in argument order. |
| RingBufTest.PositionalsComplete | userCode/ring_buf_test.c:504-523 | Every positional argument of the range is listed. |
| RingBufTest.LastFormatNone | userCode/ring_buf_test.c:477-503 | The time type is NONE exactly when no format option appears. |
| RingBufTest.LastFormatWins | userCode/ring_buf_test.c:477-503 | Otherwise it is the format of a format option that no later format option follows: a later format overrides an earlier one. |
| RingBufTest.ClkCmdArgParse | userCode/ring_buf_test.c:461-527 | The status and the four fields written equal ClkParse(argv). |
| RingBufTest.ClkEmptyIffSingle | userCode/ring_buf_test.c:468-475 | EMPTY exactly when argc == 1. Every field is reset even then. |
| RingBufTest.ClkStopsAtFirstNonFormat | userCode/ring_buf_test.c:486-502 | The first option that is not a format returns HELP for "--help"/"-h" and INVALID_ARG otherwise. The fields set before it stay set. |
| RingBufTest.ClkIgnoresAfterStop | userCode/ring_buf_test.c:486-502 | Nothing after the stopping option is read. |
| RingBufTest.ClkSuccessFields | userCode/ring_buf_test.c:504-526 | With no stopping option the result is SUCCESS. The last format wins, and the first three positional arguments fill DatePtr, TimePtr and OffsetPtr. A fourth or later positional argument changes nothing. |
| RingBufTest.HistoryQty | userCode/ring_buf_test.c:391-395 | Between 1 and the number of items: last - first + 1 when last >= first, else all items. |
| RingBufTest.ItemIx | userCode/ring_buf_test.c:398-419 | The index of the k-th item listed is within the history. |
| RingBufTest.ListPos | userCode/ring_buf_test.c:398-419 | Every history slot has a listing position that ItemIx maps back to it. |
| RingBufTest.ItemStep | userCode/ring_buf_test.c:414-418 | Each step moves the index on by one, wrapping to 0 at the number of items, and moves the 16-bit number on by one. |
| RingBufTest.ListingVisits | userCode/ring_buf_test.c:398-419 | With last >= first the listing visits first..last in order. Otherwise it visits every slot. No slot is visited twice. |
| RingBufTest.ListingNumbers | userCode/ring_buf_test.c:397-414 | For every history, one item included: the numbers printed are consecutive in 16-bit arithmetic, and the last is HistoryCnt - 1. |
| RingBufTest.DecimalSpec | userCode/ring_buf_test.c:400-406 | The number is written in decimal digits with no leading zero, and they spell the number back. |
| RingBufTest.NbrFieldSpec | userCode/ring_buf_test.c:400-406 | The 7-character field is spaces followed by the decimal digits of the number. |
| RingBufTest.ListingEntry | userCode/ring_buf_test.c:409-412 | The j-th group of four calls is number, gap, the j-th item and newline. |
| RingBufTest.ListHistory | userCode/ring_buf_test.c:391-419 | The log grows by exactly the listing of HistoryQty items. |
| RingBufTest.TerminalFc | userCode/ring_buf_test.c:350-422 | "-h" as the only argument prints the usage and returns SHELL_ERR_NONE. Any other argc != 1 prints the usage error and returns SHELL_EXEC_ERR. An empty history writes nothing. Otherwise every item is listed. |
| GpuTask.StrLen | userCode/GPU_Task.c:63 | Str_Len finds the first NUL: no NUL comes before it. |
| GpuTask.Put | userCode/GPU_Task.c:74-87 | One byte of the default branch keeps the buffer's length. |
| GpuTask.PutKeepsNul | userCode/GPU_Task.c:79-83 | Overwriting a NUL slot writes a NUL after it, so the buffer stays NUL-terminated. |
| GpuTask.GpuSendRdLine | userCode/GPU_Task.c:39-90 | Always returns TERMINAL_ESC_TYPE_NONE. The buffer, *pcursor_pos, the echo, the stop reason and the bytes consumed equal ReadLine of the old buffer. Requires a buffer of len_max + 1 bytes. |
| GpuTask.FirstStop | userCode/GPU_Task.c:61-72 | The first CR, LF or overrun marker from i on: no terminator comes before it. |
| GpuTask.ReadLineStops | userCode/GPU_Task.c:61-72 | The read consumes input up to and including the first terminator and reports which it was. It waits when there is none. Only CR/LF set *pcursor_pos, to Str_Len of the buffer. Otherwise the cursor is unchanged. |
| GpuTask.ReadLineEcho | userCode/GPU_Task.c:75-85 | The echo is exactly the printable bytes accepted while the cursor is below len_max, in input order. |
| GpuTask.ReadLineWrites | userCode/GPU_Task.c:75-85 | Slots before the cursor and above len_max are never written. The accepted bytes land from the cursor on. |
| GpuTask.ReadLineEndsAtCursor | userCode/GPU_Task.c:61-67 | Typing at the end of the string leaves Str_Len at the new cursor. |
| GpuTask.ReadLineAppends | userCode/GPU_Task.c:61-85 | Typing at the end of the string makes the new string the old prefix followed by the echoed bytes. |
| GpuTask.ReadFromStops | userCode/GPU_Task.c:56-89 | The loop from input[i] stops right after the first terminator. |
| GpuTask.ReadFromEcho | userCode/GPU_Task.c:75-85 | The echo grows by the accepted bytes, and the cursor moves by their number. |
| GpuTask.ReadFromFrame | userCode/GPU_Task.c:75-85 | The cursor never decreases and never passes len_max. Slots outside the written range keep their bytes. The slot at the final cursor is either unchanged or a NUL. |
| GpuTask.ReadFromLands | userCode/GPU_Task.c:77-80 | The slots between the starting and final cursor hold the echoed bytes. |
| GpuTask.ReadFromAtEnd | userCode/GPU_Task.c:79-83 | When the cursor is at Str_Len, it stays there. |
| GpuTask.ReaderWritesSlotLenMax | userCode/GPU_Task.c:79-131 | For every len_max, one printable byte typed at cursor len_max - 1 over a NUL writes slot len_max. So the buffer needs len_max + 1 slots. |
| GpuSerial.GpuLink.RxCpltCallback | userCode/GPU_Serial.c:123-128 | The Rx token is released only for USART1. Nothing else changes. |
| GpuSerial.GpuLink.TxCpltCallback | userCode/GPU_Serial.c:134-141 | The send token is released only for USART1. Nothing else changes. |
| GpuSerial.GpuLink.SendByte | userCode/GPU_Serial.c:143-152 | Takes the send token before the DMA transmit. Returns the transmit-start status. |
| GpuSerial.GpuLink.TxAndRxHand | userCode/GPU_Serial.c:161-191 | The status and number of attempts are those of HsFrom. The trace is the calls of those attempts. Rx1_Buffer holds the last attempt's reply. The send token is taken, and the Rx token is kept only if no wait succeeded. |
| GpuSerial.GpuLink.TryOnce | userCode/GPU_Serial.c:172-187 | One attempt: send, clear Rx1_Buffer, arm a 2-byte receive, wait, and compare with "OK". It aborts the receive exactly when the wait timed out. |
| GpuSerial.FirstAnswer | userCode/GPU_Serial.c:179-184 | The first attempt whose wait succeeded with "OK": no earlier attempt did. |
| GpuSerial.HsStopsAtFirstAnswer | userCode/GPU_Serial.c:170-190 | The handshake returns HAL_OK right after the first "OK". With no "OK" in four attempts, it returns the status of the last receive call after all four. |
| GpuSerial.HsTransmitCount | userCode/GPU_Serial.c:156-172 | The frame is transmitted at least once and at most four times, once per attempt. |
| GpuSerial.TriedSends | userCode/GPU_Serial.c:172 | k attempts transmit exactly k times. |
| GpuSerial.TriedOrdered | userCode/GPU_Serial.c:174-187 | In any number of attempts, every receive is armed for 2 bytes right after the buffer is cleared. Every timed-out wait is followed by an abort, and every abort follows a timed-out wait. |
| GpuSerial.HsSilentDisplayReportsOk | userCode/GPU_Serial.c:178-190 | As written: a display that never answers, with every receive armed successfully, makes four attempts and gets HAL_OK back. |
| GpuSerial.HsIntendedOkIff | userCode/GPU_Serial.c:156-190 | Corrected: at most three attempts. HAL_OK exactly when one of them is answered "OK", else HAL_ERROR. |
| ShellApp.IsrSender.SendFromIsr | userCode/shell_app.c:202-229 | One call is SenderTick. The count resets after passing 100. A send hands over four bytes at the offset. The offset moves on by four, wrapping to 0 at strlen of the string (its length, as it holds no NUL), and stays a multiple of four below it. |
| ShellApp.SenderRunSpec | userCode/shell_app.c:209-227 | After n calls the count is n mod 101, there have been n div 101 sends, and the j-th was sent from Offset(j). |
| ShellApp.OffsetCycle | userCode/shell_app.c:222-227 | Within one round, the j-th offset is 4j. After the last piece it is 0 again. |
| ShellApp.OffsetPeriodic | userCode/shell_app.c:222-227 | The offsets repeat every \|text\|/4 sends. |
| ShellApp.FirstRoundPieces | userCode/shell_app.c:209-227 | The j-th send of the first round is the string's j-th four-byte piece. |
| ShellApp.RoundSpellsText | userCode/shell_app.c:215-227 | One round of \|text\|/4 pieces, joined, is the string. |
| ShellApp.ScanStep | userCode/shell_app.c:144-197 | The index stays within cRxBuffer unless configASSERT has stopped prvReceivingTask. |
| ShellApp.FrameScanner.constructor | userCode/shell_app.c:128-136 | The target must fit cRxBuffer with its terminator. The buffer starts cleared, the index at 0 and the demo at PASS. |
| ShellApp.FrameScanner.Receive | userCode/shell_app.c:144-197 | One pass of the loop is ScanStep on the state of prvReceivingTask. |
| ShellApp.ScanAllAppend | userCode/shell_app.c:138-198 | Feeding two byte sequences one after the other equals feeding their concatenation. |
| ShellApp.IdleSkips | userCode/shell_app.c:156-164 | At index 0 every byte but 'H' only overwrites slot 0. |
| ShellApp.FailIsFinal | userCode/shell_app.c:174-187 | Once FAIL, the status never returns to PASS and the cycle count never moves. |
| ShellApp.CollectBody | userCode/shell_app.c:189-196 | Bytes other than 'S' inside a frame are stored one after another. |
| ShellApp.StrEqFrame | userCode/shell_app.c:172 | strcmp of a NUL-padded frame with the target is 0 exactly when the frame is the target. |
| ShellApp.FrameVerdict | userCode/shell_app.c:156-193 | A whole 'H'…'S' frame received while idle keeps the status exactly when the frame is the target, and otherwise fails it. The cycle count rises by one exactly when the status is still PASS. The buffer is then cleared at index 0. |
| ShellApp.DemoRoundPasses | userCode/shell_app.c:184-187 | One round of "_____Hello FreeRTOS_____" looking for "Hello FreeRTOS" keeps PASS and counts one cycle. |
| ShellApp.TerminalSerialRdByte | userCode/shell_app.c:305-310 | The test against sizeof(char) makes the filter the identity on the byte. |
| ShellApp.GpuSerialRdByte | userCode/shell_app.c:329-333 | Bytes 0 and 1 read as 0. Every other byte reads as itself. |
| ShellApp.RdBytesDifferOnlyAtOne | userCode/shell_app.c:305-333 | The two filters differ on exactly one byte value, 1. |
| ShellApp.RxCpltCallback | userCode/shell_app.c:260-282 | The stream keeps its old contents and then holds exactly the first `accepted` of the RxXferSize bytes at huart->pRxBuffPtr. When it accepts none, the bytes are lost and nothing changes. |

## Left out

- The FreeRTOS stream buffers, `RingBufCreate` and the semaphores are not part of this model. Neither are the `HAL_UART_*` driver and `osDelay`. Their effects are parameters: the oracle `reply` of `OutPort`, the `Attempt` values of the display link, the byte handed to `FrameScanner.Receive`, and `accepted` in `RxCpltCallback`.
- Interleavings of interrupts and tasks, blocking and timeouts are not modelled. Every callback, interrupt and loop pass is one atomic method call. The 500 ms wait of `GPU_tx_and_rx_hand` is the boolean `waitOk` of an attempt.
- The numeric values of SHELL_OUT_RTN_CODE_CONN_CLOSED, SHELL_OUT_ERR, SHELL_EXEC_ERR and SHELL_ERR_NONE belong to the shell library. They are the `Codes` parameter. Lemmas cover both cases: SHELL_EXEC_ERR equal to a failure code, and distinct from both.
- `STR_NEW_LINE` is taken as "\r\n". ring_buf_test.c does not define the `TERMINAL_*` strings it prints (`TERMINAL_NEW_LINE`, `TERMINAL_STR_HELP`, `TERMINAL_ARG_ERR_FC`, `TERMINAL_CMD_EXP_FC`). `NewLine`, `StrHelp`, `ArgErrFc` and `CmdExpFc` take their values from the definitions in userCode/GpuTask.c:15-33. The CLK option strings are taken equal to those the ring parser spells out.
- The CPU_INT16S byte counters of the output helpers are unbounded integers here. Their 16-bit wrap is not modelled, because the counts never come near it for these messages.
- `RingCmd_Write`'s buffer write and `RingBufCreate` are disabled or library calls. The write always reports success. Creation is the boolean `createOk`.
- `Terminal_fc` ignores the callback's return values. The model logs the chunks and ignores the replies too.
- `Str_FmtNbr_Int32U` is modelled only for its 7-character, space-filled decimal field.
- GpuTask.GpuSendRdLine: `usart1TxTask` calls it with TERMINAL_CFG_MAX_CMD_LEN as len_max for a 33-byte buffer. That constant's value is not part of this model, so the call is safe only if it is at most 32. The method requires a buffer of len_max + 1 bytes, and ReaderWritesSlotLenMax shows why. The caller also passes `cmd` and `cursor_pos` uninitialised on the first call. The model assumes a buffer holding a NUL.
- The escape-sequence results UP/DOWN/INS are documented but never produced, so the model returns only `EscNone`.
- GpuSerial.GpuLink.SendByte: taking the send token is one step; the wait for it is not modelled. `GPU_TFT_send_byte` ignores the `HAL_UART_Transmit_DMA` status. When a transmission fails to start, `HAL_UART_TxCpltCallback` never releases the token, and the next call blocks for ever. That includes the next attempt inside `GPU_tx_and_rx_hand`. The model does not show this deadlock.
- In `prvReceivingTask` both demo strings are commented out in the source, and so is the stream buffer. The target string and the sender's text are parameters. `DemoRoundPasses` uses the texts those commented lines give.
- `HAL_UART_RxCpltCallback` appears twice in `shell_app.c`, once per stream buffer, with the same logic. One function models both.
- ShellApp.RxCpltCallback: the bytes it forwards are the RxXferSize bytes at `huart->pRxBuffPtr`, a parameter here. The HAL receive routine advances `pRxBuffPtr` past each byte it stores before it calls the callback, so those bytes start just after the ones received, not at them. The HAL driver is not part of this model, so the model does not claim that the received bytes reach the stream.
- `TerminalSerial_RdByte` and `GPU_Serial_RdByte` block on a semaphore and a stream-buffer receive. Only their filter on the received byte is modelled.
- Helpers that only factor code have no rows: `RingCmd.OutputUsage`, `OutputPair`, `ReportError` and `ReportMsg` are repeated blocks of the command bodies.

## Findings

| source | as written | input that shows it | evidently intended | confidence | as-written member | corrected member |
|---|---|---|---|---|---|---|
| userCode/GPU_Serial.c:178-190 | After all attempts fail, the function returns `reStat`, the status of the last `HAL_UART_Receive_IT`. That is HAL_OK whenever the receive could be armed. | A display that never answers: every wait times out, and every receive is armed with HAL_OK. | Report a failure when no "OK" reply arrived. | not executed | GpuSerial.HsSilentDisplayReportsOk | GpuSerial.HsIntendedOkIff |
| userCode/GPU_Serial.c:156-170 | `sendCnt <= 3` makes four attempts, while the comment promises three. | The same silent display: four transmissions. | Three attempts. | not executed | GpuSerial.HsSilentDisplayReportsOk | GpuSerial.HsIntendedOkIff |
