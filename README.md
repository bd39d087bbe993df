# StemLab core, modelled in Dafny

StemLab drives a Red Pitaya board from Python. The board runs a small C
program, the monitor server. It reads and writes 32-bit words of FPGA memory
when a client asks over TCP. On the PC side, `MonitorClient` frames these
requests, checks each reply and retries failed requests. Register
descriptors (`BoolRegister`, `IntRegister`, `LongRegister`, `FloatRegister`,
`FilterRegister`, `SelectRegister`, list properties) map Python values to
and from register words. Modules (`Module`, `HardwareModule`) hold these
registers, run `setup`, and track who owns them. On top of this sit the DSP
signal routing tables, the scope and the IIR filter.

The project models:

- **The wire protocol.** This is the 8-byte header: opcode, a reserved byte,
  a 16-bit little-endian word count and a 32-bit little-endian address,
  with words packed little-endian (`wire.dfy`).
- **The client.** `stemlab_client.dfy` covers `_reads`, `_writes`,
  `emptybuffer`, `try_n_times`, `restart` and `close`. The network is a
  script of receive events per connection.
- **The server's service loop.** `monitor_server.dfy` models it over a
  memory map and an input byte stream. `read_values` and `write_values`
  work on arrays.
- **The two ends together.** `stack.dfy` proves that a write followed by a
  read of the same words returns those words.
- **Register access.** `hardware.dfy` covers the module-level accessors
  and `_to_pyint`/`_from_pyint`. `registers.dfy` covers the register
  descriptors acting on a `HardwareModule`. `attributes.dfy` covers the
  pure conversions behind them.
- **`AttributeList` and its owning list property** (`attribute_list.dfy`).
- **The module lifecycle** (`modules.dfy`). This covers the
  `_setup_ongoing` guard, the generated `setup`, `value_updated`, the owner
  state machine, the class-level setup attribute lists the metaclass
  builds, and the nested `setup_attributes` record.
- **The utilities** of `pyrpl_utils.py` (`pyrpl_utils.dfy`).
- **DSP routing** (`dsp.dfy`). This covers the DSP input table, `all_inputs`
  pointer resolution, the input shortcut rule, `all_output_directs` and
  `dsp_addr_base`.
- **The scope** (`scope.dfy`). This covers the duration and sampling-time
  validators, the decimation tables, the trigger delay rounding,
  `_start_acquisition`, the rolling mode start, the curve status and the
  raw sample conversion.
- **The IIR filter** (`iir.dfy`, `iir_lists.dfy`). This covers the overflow
  text, `_from_double`/`_to_double`, the coefficient memory layout of the
  `coefficients` setter and getter, and the four pole/zero slave lists with
  their exclusive selection.

Except for the client's retry and reply loops (below), the model follows
the code as written, also where the code's comments or evident intent say
otherwise:

- The protocol comment in `monitor_server.c` says unknown commands are
  ignored. The loop terminates on them.
- The same comment gives the maximum length as 2^16. The loop clamps it to
  65535.
- `list_changed` of list properties tests for the operation 'selecti', so
  selections reach `value_updated` (`ListProperty.ListChanged`). The
  intended test on 'select' is modelled beside it
  (`ListProperty.ListChangedIntended`), but nothing calls it.
- The IIR slave lists compare `name.split('_')[1]`, which is 'poles' or
  'zeros', with 'pole', so no normalisation negates a positive pole
  (`IirLists.PoleTest`). The normalisations take the outcome of that test
  as a parameter, and their contracts also state what a holding test does.

- The overflow status is modelled both ways: as written
  (`Iir.OverflowAsWritten`) and as its parts define it
  (`Iir.OverflowStatus`).

The client's retry and reply loops are the exception: the members that
make up the client object model the evident intent, and the code as
written is modelled beside them.

- `try_n_times` passes each attempt's result back as the next attempt's
  argument, so an attempt after one that returned None raises TypeError.
  `StemlabClient.MonitorClient.TryNTimes`, `StemlabClient.MonitorClient.Reads`
  and `StemlabClient.MonitorClient.Writes` retry the original request
  instead (`StemlabClient.TrySpec`). The code as written is
  `StemlabClient.TryAsWritten`, and `StemlabClient.RetryAfterDesync` shows
  an input where the two differ.
- The reply loop of `_reads` never ends once the peer has closed.
  `StemlabClient.MonitorClient.ReceiveReply` fails instead
  (`StemlabClient.Collect`). The loop as written is
  `StemlabClient.ReadLoopStepAsWritten`, and
  `StemlabClient.ReadLoopSpinsOnClose` shows it making no progress.

These two, the 'selecti' test, the pole test and the overflow status are
listed under "## Findings".

The model assumes the board's platform: a 32-bit ARM target, where
`unsigned long` is 4 bytes and `char` is unsigned.

## Model

| member | source | states |
|---|---|---|
| Wire.WordBytes | stemlab/stemlab_client.py:129-130 | a word is encoded as exactly four bytes |
| Wire.WordRoundTrip | stemlab/stemlab_client.py:129-130 | decoding the four little-endian bytes of a word gives the word back |
| Wire.BytesRoundTrip | stemlab/monitor_server/monitor_server.c:209 | any four bytes are the encoding of the word they decode to |
| Wire.WordsToBytes | stemlab/stemlab_client.py:129-130 | a sequence of words packs into four bytes per word |
| Wire.BytesToWords | stemlab/stemlab_client.py:112 | a byte string whose length is a multiple of four unpacks into one word per four bytes |
| Wire.WordsBytesRoundTrip | stemlab/stemlab_client.py:112 | unpacking packed words gives the words back |
| Wire.BytesWordsRoundTrip | stemlab/monitor_server/monitor_server.c:225-229 | packing unpacked bytes gives the bytes back |
| Wire.WordsToBytesAppend | stemlab/stemlab_client.py:129-130 | packing distributes over concatenation |
| Wire.Header | stemlab/stemlab_client.py:104-106 | the header is 8 bytes: opcode, a zero byte, the low 16 bits of the length little-endian, the low 32 bits of the address little-endian |
| Wire.HeaderFields | stemlab/monitor_server/monitor_server.c:209-210 | for an in-range length and address the server's decoding of the header gives them back |
| Wire.HeaderInjective | stemlab/stemlab_client.py:111 | two headers with in-range fields are equal exactly when their opcode, length and address are equal |
| StemlabClient.RecvSpec | stemlab/stemlab_client.py:108 | a receive returns at most the requested byte count; it returns no bytes exactly when the peer has closed |
| StemlabClient.Collect | stemlab/stemlab_client.py:108-110 | when the reply loop completes it holds exactly the requested number of bytes |
| StemlabClient.ResumeStep | stemlab/stemlab_client.py:109-110 | one pass of the reply loop either ends the loop (timeout or close) or adds the received bytes without overshooting |
| StemlabClient.ReadRequest | stemlab/stemlab_client.py:101-106 | the read header is 8 bytes |
| StemlabClient.WriteValues | stemlab/stemlab_client.py:119 | a write sends at most 65533 words |
| StemlabClient.WriteHeader | stemlab/stemlab_client.py:120-127 | the write header is 8 bytes |
| StemlabClient.CloseFrame | stemlab/stemlab_client.py:75-81 | the close frame is 8 bytes starting with 'c' |
| StemlabClient.RestartSpec | stemlab/stemlab_client.py:164-170 | a restart records what was sent plus the close frame, opens the next connection and resets both counters |
| StemlabClient.TryEndsOnValue | stemlab/stemlab_client.py:160-162 | an attempt that returns a value ends the retry loop with it |
| StemlabClient.TryGoesOn | stemlab/stemlab_client.py:160-162 | an attempt that returns None is followed by the next attempt on the same connection |
| StemlabClient.TryRestarts | stemlab/stemlab_client.py:149-159 | an attempt that raises restarts the server before the next attempt exactly when a restart function was given |
| StemlabClient.TryStops | stemlab/stemlab_client.py:145-162 | at most n attempts are made; without a result, all n were made and none returned; with one, the last attempt returned it and none earlier did |
| StemlabClient.TryRestartCount | stemlab/stemlab_client.py:145-162 | the number of restarts equals the number of attempts that raised, when restarts are possible, and zero otherwise |
| StemlabClient.CollectIsPrefix | stemlab/stemlab_client.py:108-110 | the reply loop succeeds exactly when enough bytes arrive before a timeout or close; it then returns the first k of them and leaves the rest |
| StemlabClient.OnceKeepsHistory | stemlab/stemlab_client.py:100-136 | a single attempt never opens a new connection |
| StemlabClient.ReadsReturned | stemlab/stemlab_client.py:111-112 | a read that returns data received a reply beginning with its own header, and returns the words after it |
| StemlabClient.ReadsInSync | stemlab/stemlab_client.py:108-112 | a read returns the words ws exactly when the available bytes start with its header followed by ws |
| StemlabClient.CollectOneChunk | stemlab/stemlab_client.py:108 | a chunk of exactly the requested size is taken in one receive |
| StemlabClient.ReadReply | stemlab/monitor_server/monitor_server.c:216-219 | the server's reply to a read is the echoed header followed by the words |
| StemlabClient.ReadsExactReply | stemlab/stemlab_client.py:100-112 | a read answered by the server's reply returns exactly the words sent and consumes that reply |
| StemlabClient.ReadsAfterCollect | stemlab/stemlab_client.py:108-116 | a read raises on a short reply, returns the words on an echoed header, and drains the socket then returns None otherwise |
| StemlabClient.ReadsShortRaises | stemlab/stemlab_client.py:108-110 | a read raises when fewer bytes arrive than the reply needs |
| StemlabClient.WritesInSync | stemlab/stemlab_client.py:131-132 | a write succeeds exactly when the next chunk starts with its echoed header |
| StemlabClient.OnceReadReturned | stemlab/stemlab_client.py:87-116 | a read attempt that returns words records exactly its header as sent and consumes the reply |
| StemlabClient.OnceWriteReturned | stemlab/stemlab_client.py:118-132 | a write attempt that succeeds records its header and payload as sent |
| StemlabClient.FirstAttemptDesyncs | stemlab/stemlab_client.py:111-116 | a junk reply followed by a close makes the first read attempt drain and return None |
| StemlabClient.ClosedRaises | stemlab/stemlab_client.py:108-110 | a read on a closed connection raises (in the model's reply loop) |
| StemlabClient.RetryAfterDesync | stemlab/stemlab_client.py:145-162 | as written, the retry after a desynchronised reply ends in TypeError; with the request kept, it reads the word after a restart |
| StemlabClient.ReadLoopSpinsOnClose | stemlab/stemlab_client.py:108-110 | as written, a pass of the reply loop on a closed connection changes nothing, so the loop never ends; the modelled loop raises instead |
| StemlabClient.MonitorClient.constructor | stemlab/stemlab_client.py:31-73 | a new client is on its first connection with nothing sent and both counters at zero |
| StemlabClient.MonitorClient.Recv | stemlab/stemlab_client.py:108 | one socket receive, as the receive specification says |
| StemlabClient.Drain | stemlab/stemlab_client.py:138-143 | `emptybuffer` as a function of the receive script: a closed connection ends it without raising, a timeout raises, and it raises only after a receive |
| StemlabClient.MonitorClient.EmptyBuffer | stemlab/stemlab_client.py:138-143 | up to 100 receives of 16384 bytes, stopping at an empty one or a timeout |
| StemlabClient.ReadsSpec | stemlab/stemlab_client.py:100-116 | a read that returns gives exactly as many words as requested, capped at 65535 |
| StemlabClient.ReadLoopStepAsWritten | stemlab/stemlab_client.py:108-110 | one pass of the reply loop as written keeps the bytes it had, never goes past the bytes needed, and adds nothing only once the peer has closed |
| StemlabClient.MonitorClient.ReadsOnce | stemlab/stemlab_client.py:100-116 | `_reads` sends its header and returns what the read specification gives |
| StemlabClient.MonitorClient.ReceiveReply | stemlab/stemlab_client.py:108-110 | the reply loop collects exactly the needed bytes, or reports none when a receive times out or the peer closes |
| StemlabClient.WritesSpec | stemlab/stemlab_client.py:118-136 | a write that returns gives True, and a write whose echoed header does not arrive raises |
| StemlabClient.MonitorClient.WritesOnce | stemlab/stemlab_client.py:118-136 | `_writes` sends header and payload and returns what the write specification gives |
| StemlabClient.MonitorClient.Once | stemlab/stemlab_client.py:100-136 | one attempt of a read or write, as specified |
| StemlabClient.MonitorClient.Close | stemlab/stemlab_client.py:75-81 | close sends the 8-byte close frame |
| StemlabClient.MonitorClient.Restart | stemlab/stemlab_client.py:164-170 | restart moves the client to the state the restart specification gives |
| StemlabClient.MonitorClient.TryOnce | stemlab/stemlab_client.py:146-162 | one pass of the retry loop ends the loop with a value, or leaves the rest of the loop to decide the outcome |
| StemlabClient.OnceSpec | stemlab/stemlab_client.py:100-136 | one attempt sends exactly the request's bytes and changes nothing but the current connection; a read that returns holds the requested number of words, a write that returns is an acknowledgement |
| StemlabClient.TrySpec | stemlab/stemlab_client.py:145-162 | retrying with the request kept: at most n attempts, none but the last returning a value; the result is the last attempt's value, and without a value all n attempts were made |
| StemlabClient.TryAsWritten | stemlab/stemlab_client.py:145-162 | retrying as written, each result passed on as the next argument: no attempts give no value; a first attempt that returns a reply gives that reply; a first attempt that returns None, with another attempt left, ends in TypeError; and a TypeError needs an attempt that returned None and another attempt after it |
| StemlabClient.MonitorClient.TryNTimes | stemlab/stemlab_client.py:145-162 | five attempts with the request kept, restarting after socket errors when possible |
| StemlabClient.MonitorClient.Reads | stemlab/stemlab_client.py:87-91 | `reads` counts the call and retries the read five times |
| StemlabClient.MonitorClient.Writes | stemlab/stemlab_client.py:93-97 | `writes` counts the call and retries the write five times |
| MonitorServer.Loaded | stemlab/monitor_server/monitor_server.c:254-256 | a read of n words yields n words |
| MonitorServer.LoadedAt | stemlab/monitor_server/monitor_server.c:254-256 | word i of a read is the memory word at address + 4i |
| MonitorServer.LoadStored | stemlab/monitor_server/monitor_server.c:276-278 | after a write of consecutive words from addr, the word at address x is the written word when x is addr plus a multiple of 4 inside the written range, and the old word otherwise (word-aligned, non-overlapping words; see "## Left out") |
| MonitorServer.ReadAfterWrite | stemlab/monitor_server/monitor_server.c:246-287 | reading back the words just written gives them |
| MonitorServer.FrameLength | stemlab/monitor_server/monitor_server.c:210-212 | the length taken from a header never exceeds 65535 |
| MonitorServer.FrameLengthOfHeader | stemlab/monitor_server/monitor_server.c:210-212 | the server reads back the length the client put in the header |
| MonitorServer.FrameLengthSignedChar | stemlab/monitor_server/monitor_server.c:210 | the length as a compiler with signed char would compute it, clamped the same way |
| MonitorServer.SignedCharMisreadsLength | stemlab/monitor_server/monitor_server.c:210 | with signed char, a length byte of 200 gives 65535 words instead of 200 |
| MonitorServer.SignedCharAgreesBelow128 | stemlab/monitor_server/monitor_server.c:210 | the two readings agree when both length bytes are below 128 |
| MonitorServer.StepSpec | stemlab/monitor_server/monitor_server.c:199-235 | each pass of the service loop that goes on consumes input |
| MonitorServer.Run | stemlab/monitor_server/monitor_server.c:199-235 | everything the server sends in a session is made of whole 32-bit words |
| MonitorServer.RunStep | stemlab/monitor_server/monitor_server.c:199-235 | a session is the output of one pass followed by the session on the rest, or the stop of that pass |
| MonitorServer.ZeroLengthSkipped | stemlab/monitor_server/monitor_server.c:213-214 | a header with length 0 is skipped whatever its opcode |
| MonitorServer.ReadAnswered | stemlab/monitor_server/monitor_server.c:216-222 | a read request that fits the window is answered by the echoed header and the memory words, and memory is unchanged |
| MonitorServer.WriteAnswered | stemlab/monitor_server/monitor_server.c:223-232 | a write request that fits the window stores its words and is answered by the echoed header |
| MonitorServer.UnknownOpcodeStops | stemlab/monitor_server/monitor_server.c:234 | a non-empty header with an unknown opcode ends the server without output |
| MonitorServer.Server.constructor | stemlab/monitor_server/monitor_server.c:156-196 | a server on an accepted connection with the given memory and input, nothing sent |
| MonitorServer.Server.ReadValues | stemlab/monitor_server/monitor_server.c:246-266 | `read_values` succeeds exactly when the words fit the mapped window, and then fills the buffer with them |
| MonitorServer.Server.WriteValues | stemlab/monitor_server/monitor_server.c:268-287 | `write_values` succeeds exactly when the words fit the mapped window; memory receives the words that fit |
| MonitorServer.Server.RecvWords | stemlab/monitor_server/monitor_server.c:225-227 | the payload receive unpacks the next 4n bytes into the buffer and consumes them |
| MonitorServer.Server.ServeFrame | stemlab/monitor_server/monitor_server.c:199-235 | one pass of the service loop changes memory, input and output as the pass specification says |
| MonitorServer.Server.Serve | stemlab/monitor_server/monitor_server.c:199-235 | the whole loop leaves memory, output and exit reason as the session specification gives |
| MonitorServer.Server.ServePass | stemlab/monitor_server/monitor_server.c:199-235 | a stopping pass ends the session there; a continuing one consumes input and is the prefix of the session's output |
| Stack.CloseFrameIsSkipped | stemlab/monitor_server/monitor_server.c:213-214 | the client's close frame has length 0, so the server skips it; the session ends only when the stream does |
| Stack.WriteReadAnswer | stemlab/monitor_server/monitor_server.c:216-231 | the server's output for a write then a read is the write echo followed by the read reply |
| Stack.ServerWriteThenRead | stemlab/monitor_server/monitor_server.c:199-235 | a client write then read of the same words leaves the words in memory and answers with the echo and the words |
| Stack.ReadAlone | stemlab/monitor_server/monitor_server.c:216-222 | a lone read request is answered and then the session ends for want of a header |
| Stack.WriteAcknowledged | stemlab/stemlab_client.py:129-132 | the client accepts the server's echo of its write header |
| Stack.WriteThenReadRoundTrip | stemlab/stemlab_client.py:100-136 | end to end: the server stores the written words, and the client's write succeeds and its read returns the same words |
| Hardware.HardwareModule.constructor | stemlab/modules.py:429-438 | a hardware module at its base address over the board's registers |
| Hardware.HardwareModule.Reads | stemlab/modules.py:463-464 | `_reads` returns the words at base + offset, at most 65535 of them |
| Hardware.HardwareModule.Writes | stemlab/modules.py:466-467 | `_writes` stores at most 65533 words at base + offset and records the write |
| Hardware.HardwareModule.Read | stemlab/modules.py:469-470 | `_read` returns the word at base + offset |
| Hardware.HardwareModule.Write | stemlab/modules.py:472-473 | `_write` stores one word at base + offset and records the write |
| Hardware.FromPyInt | stemlab/modules.py:481-486 | the result fits the bit length; a non-negative in-range value is kept and a negative one becomes its two's complement |
| Hardware.ToPyInt | stemlab/modules.py:475-479 | the result is a signed value of the bit length; the low half is kept and the high half is wrapped negative |
| Hardware.PyIntRoundTrip | stemlab/modules.py:475-486 | the two conversions are inverse on signed and on unsigned values of the bit length |
| Attributes.MergeBits | stemlab/attributes.py:171-172 | bit by bit, a masked write takes the new bit under the mask and the old bit elsewhere |
| Attributes.MaskedMerge | stemlab/attributes.py:164-173 | every bit of the merged word comes from the new value under the mask and from the current word elsewhere |
| Attributes.MaskedMergeIdempotent | stemlab/attributes.py:164-173 | writing the same value twice under a mask is the same as once, and writing the current word changes nothing |
| Attributes.FullMaskWritesValue | stemlab/attributes.py:168-173 | a full mask writes the value itself |
| Attributes.AndMask | stemlab/attributes.py:154-162 | a masked read keeps the bits under the mask and clears the rest |
| Attributes.MaskedReadBack | stemlab/attributes.py:154-173 | a masked read after a masked write gives the masked new value; masking twice is masking once |
| Attributes.BoolFromPython | stemlab/attributes.py:244-252 | the word written reads back as the boolean set, and every other bit of the register is kept |
| Attributes.BoolRewriteUnchanged | stemlab/attributes.py:238-252 | writing back the boolean a register shows leaves the register unchanged |
| Attributes.BoolIgnoreValidate | stemlab/attributes.py:260-273 | strings equal to 'true' or 'false' ignoring case give True or False, other strings 'ignore', other values their truth |
| Attributes.BoolIgnoreExamples | stemlab/attributes.py:260-273 | 'TRUE' gives True, 'False' gives False, 'yes' gives 'ignore' |
| Attributes.IntRegisterValidate | stemlab/attributes.py:326-333 | an integer register saturates into [0, 2^bits - 1], keeping in-range values |
| Attributes.WordCount | stemlab/attributes.py:365 | the word count is the least number of 32-bit words holding the bits |
| Attributes.Words | stemlab/attributes.py:405-410 | a long value is split into the given number of words |
| Attributes.WordsAt | stemlab/attributes.py:409-410 | word i of a long value is bits 32i to 32i + 31 |
| Attributes.JoinSnoc | stemlab/attributes.py:395-399 | joining one more word adds it at the next 32-bit position |
| Attributes.LongWordsRoundTrip | stemlab/attributes.py:395-410 | joining the words of a value that fits the bit length gives the value back |
| Attributes.LongJoinSplit | stemlab/attributes.py:395-410 | splitting a joined word sequence gives the words back |
| Attributes.FloatFromInt | stemlab/attributes.py:481-509 | the register word fits the register's bit length |
| Attributes.FloatNonzeroKept | stemlab/attributes.py:490-494 | a non-zero value never becomes the zero word |
| Attributes.FloatSignedRoundTrip | stemlab/attributes.py:467-509 | for a signed register, the round trip gives the non-zero value saturated to the signed range |
| Attributes.FloatUnsignedRoundTrip | stemlab/attributes.py:467-509 | for an unsigned register, the round trip gives the absolute value saturated to the unsigned range |
| Attributes.StageByte | stemlab/attributes.py:781-804 | with a shift of at most 6 bits each filter stage occupies one byte |
| Attributes.StageBytes | stemlab/attributes.py:781-804 | one byte per filter stage, each the stage byte of its position, stages beyond the given list off |
| Attributes.FilterFromPython | stemlab/attributes.py:775-806 | `from_python` packs the stage bytes little-endian, stage i at bits 8i to 8i + 7 |
| Attributes.FilterToPython | stemlab/attributes.py:742-773 | `to_python` decodes one stage per filter stage |
| Attributes.StageByteBits | stemlab/attributes.py:797-803 | a stage byte has bit 7 set exactly when the stage is on, bit 6 exactly when it is a high-pass, and the shift clamped in its low bits |
| Attributes.FilterRoundTrip | stemlab/attributes.py:742-806 | decoding the packed value gives each stage's on flag, high-pass flag and clamped shift back |
| Attributes.Options | stemlab/attributes.py:1109-1113 | the options are the given keys, or the single option None when there are none |
| Attributes.SelectDefault | stemlab/attributes.py:1068-1088 | the default is the preset default when it is an option, and the first option otherwise |
| Attributes.SelectValidate | stemlab/attributes.py:1146-1159 | an option is kept; a non-option raises ValueError, unless errors are ignored, when it becomes the default |
| Attributes.SelectValidateIdempotent | stemlab/attributes.py:1146-1159 | a validated value validates to itself, even without ignoring errors |
| Registers.GetRegister | stemlab/attributes.py:154-162 | `get_value` reads the register word, masked when a bit mask is given |
| Registers.SetRegister | stemlab/attributes.py:164-173 | `set_value` writes the value, merged into the current word under the bit mask, as a single write |
| Registers.SetThenGet | stemlab/attributes.py:154-173 | a register reads back what was set (masked), and other registers are unchanged |
| Registers.GetBool | stemlab/attributes.py:238-242 | a boolean register shows its bit, inverted when asked |
| Registers.SetBool | stemlab/attributes.py:244-252 | setting a boolean writes the current word with only its bit changed |
| Registers.BoolSetThenGet | stemlab/attributes.py:238-252 | a boolean register reads back the boolean set; without a mask, every other bit is kept |
| Registers.IntWord | stemlab/attributes.py:348-357 | the word an integer register writes is the value saturated to the register's range |
| Registers.SetInt | stemlab/attributes.py:359-377 | setting an integer register writes the saturated value |
| Registers.ConstantIntRegister.constructor | stemlab/attributes.py:379-391 | a constant register starts with nothing cached |
| Registers.ConstantIntRegister.Get | stemlab/attributes.py:384-390 | the first read comes from the board and is cached; later reads return the cached value |
| Registers.MaskWords | stemlab/attributes.py:400-403 | a masked long value is masked word by word |
| Registers.JoinWords | stemlab/attributes.py:396-399 | the words read are joined little-endian into one integer |
| Registers.GetLong | stemlab/attributes.py:395-403 | a long register reads its words and joins them, masked when asked; reads too long for the client raise IndexError |
| Registers.LongWords | stemlab/attributes.py:405-416 | the words written are the value's words, merged per word under the mask when one is given |
| Registers.SplitWords | stemlab/attributes.py:407-416 | the setter's loop builds exactly those words |
| Registers.SetLong | stemlab/attributes.py:405-418 | a long register writes its words in one transfer; too long a masked read raises IndexError and writes nothing |
| Registers.LongSetThenGet | stemlab/attributes.py:395-418 | a long register reads back the value it was set to |
| Registers.Keys | stemlab/attributes.py:1125 | the option keys, in order |
| Registers.OptionValue | stemlab/attributes.py:1203 | an option key has a register value exactly when it is a key, and that value is its own |
| Registers.KeyOfValue | stemlab/attributes.py:1216 | the key of a register value is found exactly when some option has that value, and it is such an option |
| Registers.KeyOfValueInverse | stemlab/attributes.py:1203-1216 | the value of the key found for a register value is that value |
| Registers.SelectRegister.constructor | stemlab/attributes.py:1182-1187 | a select register with its options, defaults and no stored value |
| Registers.SelectRegister.ChangeOptions | stemlab/attributes.py:1129-1144 | new options take effect at once and the stored value is kept |
| Registers.SelectRegister.Default | stemlab/attributes.py:1068-1088 | the default is always one of the options: the preset default when it is one, the first option otherwise |
| Registers.SelectRegister.Get | stemlab/attributes.py:1200-1219 | a stored option that fails validation raises ValueError; a valid one whose register value matches the board is returned unchanged, with no write; on a mismatch the option of the board's value is stored and written back as one masked write, or ValueError when no option has it; what it returns always matches the board |
| Registers.SelectRegister.Adopt | stemlab/attributes.py:1212-1218 | the option of the board's value is stored, written back as one masked write and returned; when no option has that value it raises ValueError and changes neither the stored value nor the board |
| Registers.SelectRegister.Set | stemlab/attributes.py:1221-1223 | a validated option is stored and its register value written; an invalid one raises and changes nothing |
| AttributeLists.PyIndex | stemlab/attributes.py:864 | Python indexing: an index is valid exactly in [-n, n), and a negative one counts from the end |
| AttributeLists.InsertPosition | stemlab/attributes.py:830 | `list.insert` clamps the position into [0, n], counting negatives from the end |
| AttributeLists.FirstIndex | stemlab/attributes.py:871 | `list.index` finds the first position of the value |
| AttributeLists.UniqueIndex | stemlab/attributes.py:862-866 | `_get_unique_index` is the first position of the element at the index, or None when the index is invalid |
| AttributeLists.Map | stemlab/attributes.py:954-958 | normalising every element keeps the length and normalises each position |
| AttributeLists.MapSnoc | stemlab/attributes.py:954-958 | normalising one more element appends its normalised form |
| AttributeLists.Selects | stemlab/attributes.py:856-860 | a log reports at most one selection per change |
| AttributeLists.LastSelect | stemlab/attributes.py:856-860 | a log has a last selection exactly when it reports one |
| AttributeLists.SelectsAppend | stemlab/attributes.py:856-860 | selections add over concatenated logs, and the last selection is that of the later log when it has one |
| AttributeLists.SelectsStep | stemlab/attributes.py:965-973 | reading one more change counts it and makes it the last selection exactly when it is a selection |
| AttributeLists.EditLog | stemlab/attributes.py:954-958 | placing positions lo to hi logs two changes per position |
| AttributeLists.EditLogSelects | stemlab/attributes.py:954-958 | placing positions reports one selection per position, the last one selecting the first position equal to the element placed last |
| AttributeLists.UniqueIndexPrefix | stemlab/attributes.py:862-866 | the unique index of a position depends only on the elements up to it |
| AttributeLists.EditLogPrefix | stemlab/attributes.py:954-958 | the log of placements depends only on the elements placed so far |
| AttributeLists.EditLogStep | stemlab/attributes.py:954-958 | placing one more position extends the log of the earlier placements by its two changes |
| AttributeLists.LastFrom | stemlab/attributes.py:892-894 | the last position at or after lo holding a value, or none when no such position holds it |
| AttributeLists.UnselectAt | stemlab/attributes.py:842-845 | popping from the end clears a selection only when it is the first position of its element, at the pop of the last position holding that element, and always does so when the selection lies in the popped range |
| AttributeLists.PopLog | stemlab/attributes.py:883-887 | popping a list down to lo elements logs one deletion per pop and one extra selection when the pop that clears the selection is among them |
| AttributeLists.PopStepSelects | stemlab/attributes.py:842-848 | one pop reports a selection, of None, exactly at the position that clears the selection |
| AttributeLists.PopLogSelects | stemlab/attributes.py:960-961 | popping down reports at most one selection, of None, exactly when the clearing pop is in range |
| AttributeLists.PopUnselects | stemlab/attributes.py:842-845 | a pop of the last position clears the selection exactly when it is the position the clearing rule names |
| AttributeLists.SetValueSelection | stemlab/attributes.py:949-963 | with new elements, `set_value` leaves no selection or the first position of the last element placed; with none, the selection is kept or cleared |
| AttributeLists.SetValueLog | stemlab/attributes.py:949-963 | `set_value` reports two changes per element placed, one per element popped, and at most one clearing of the selection |
| AttributeLists.SetValueSelects | stemlab/attributes.py:949-963 | `set_value` reports between n and n + 1 selections for n new elements (n + 1 only when the list was longer); with none the selection is kept, otherwise the last one reported is the selection left |
| AttributeLists.Overwritten | stemlab/attributes.py:954-958 | after the first loop the list is as long as the longer of the two, starts with the new elements and keeps the old tail |
| AttributeLists.OverwritingStep | stemlab/attributes.py:954-958 | one more step of the first loop keeps the loop's state (list, selection and log) as the new elements so far describe it |
| AttributeLists.OverwrittenPrefix | stemlab/attributes.py:954-958 | one more step of the first loop leaves the positions already placed alone |
| AttributeLists.ExtendingStep | stemlab/attributes.py:879-881 | one more append keeps the state of `extend` as the elements appended so far describe it |
| AttributeLists.OverwriteStep | stemlab/attributes.py:954-958 | one step of the first loop overwrites the next position or appends past the end |
| AttributeLists.Reversed | stemlab/attributes.py:904-906 | the reversed copy holds the elements in opposite order |
| AttributeLists.AttributeList.constructor | stemlab/attributes.py:820-823 | a new list holds the initial elements, nothing selected |
| AttributeLists.AttributeList.SetSelected | stemlab/attributes.py:856-860 | the `selected` setter keeps the elements, stores the first position of the element at the index (None for an invalid index or None) and logs one selection of that position |
| AttributeLists.AttributeList.InsertAt | stemlab/attributes.py:826-832 | insert places the normalised element (or the default) at the clamped position, selects the first position of the element now at the index, and logs the insertion then that selection |
| AttributeLists.AttributeList.SetItemAt | stemlab/attributes.py:834-840 | an in-range assignment replaces the element with its normalised form, selects the first equal position and logs the replacement then the selection; an invalid index raises IndexError and changes nothing, the log included |
| AttributeLists.AttributeList.DelItemAt | stemlab/attributes.py:842-848 | a selection equal to the unique index of the position is cleared first (logging a selection of None) and any other is kept; an in-range index then removes the element and logs the deletion; an invalid index raises IndexError after the unselect and keeps the elements |
| AttributeLists.AttributeList.SelectAsWritten | stemlab/attributes.py:868-873 | as written, selecting a value not in the list raises ValueError and changes nothing; a value in the list selects its first position and logs it |
| AttributeLists.AttributeList.SelectValue | stemlab/attributes.py:868-873 | select keeps the elements, picks the first position of the value, or None when it is absent, and logs that selection |
| AttributeLists.AttributeList.Append | stemlab/attributes.py:876-877 | append adds the normalised element at the end, selects the first position equal to it, and logs the insertion at the old length then the selection |
| AttributeLists.AttributeList.Extend | stemlab/attributes.py:879-881 | extend appends every normalised element in order and logs an insertion and a selection per element; the first position equal to the last element is selected, and an empty extend keeps the selection |
| AttributeLists.AttributeList.Pop | stemlab/attributes.py:883-887 | pop returns the element at the index and deletes it as `__delitem__` does: a selection of that element's unique index is cleared and logged, then the deletion is logged; an invalid index raises IndexError and changes nothing |
| AttributeLists.AttributeList.Remove | stemlab/attributes.py:889-890 | remove deletes the first occurrence, clearing a selection of that position, with the same log as `__delitem__`; a missing value raises ValueError and changes nothing |
| AttributeLists.AttributeList.Clear | stemlab/attributes.py:892-894 | clear empties the list; a selection that is the first position of its element is cleared, any other kept; the log is the pops from the end, with one selection of None at the pop of the last position holding the selected element |
| AttributeLists.AttributeList.Reverse | stemlab/attributes.py:904-908 | reverse rewrites the list in opposite order, normalised, logging a replacement and a selection per position; a non-empty list ends with the first position equal to the last element selected, and an empty one keeps its selection |
| AttributeLists.ListProperty.constructor | stemlab/attributes.py:920-926 | a list property over its list and module |
| AttributeLists.ListProperty.SetupsPerUpdate | stemlab/hardware_modules/iir/iir.py:83-89 | one update runs setup at most twice (the property and its master), and never while setup is in progress |
| AttributeLists.ListProperty.ValueUpdated | stemlab/attributes.py:93-106 | `value_updated` runs setup once per property with `call_setup`, unless setup is in progress |
| AttributeLists.ListProperty.Reported | stemlab/attributes.py:965-973 | the property passes every change of a log to `list_changed`, or every change but the selections when its owner handles them |
| AttributeLists.ListProperty.ReportedSnoc | stemlab/attributes.py:965-973 | one more change adds one reported change unless it is a selection the owner handles |
| AttributeLists.ListProperty.ListChanged | stemlab/attributes.py:965-973 | as written, `list_changed` tests for the operation 'selecti', so every change, a selection included, runs `value_updated` and the setups it causes |
| AttributeLists.ListProperty.ListChangedIntended | stemlab/attributes.py:965-973 | as intended, a selection runs no setup, and every other change runs setup as `value_updated` does |
| AttributeLists.ListProperty.Notify | stemlab/attributes.py:965-973 | passing a list's new changes on runs setup once per update for every change reported to `list_changed` |
| AttributeLists.ListProperty.InsertElement | stemlab/attributes.py:826-832 | inserting through the property places and selects the element as `insert` does, logs the insertion and the selection, and runs setup once per update for each change that reaches `list_changed` (one when the owner handles the selection, two otherwise) |
| AttributeLists.ListProperty.OverwriteAt | stemlab/attributes.py:954-958 | the setter's step replaces an existing element or appends one past the end, selects its first equal position and logs the replacement or insertion then the selection |
| AttributeLists.ListProperty.OverwriteAll | stemlab/attributes.py:954-958 | the setter's first loop places every normalised new element over the old list and keeps the extra old ones; the log is a placement and a selection per element, and the last one placed is selected |
| AttributeLists.ListProperty.PopTrailing | stemlab/attributes.py:960-961 | the setter's second loop cuts the list to the new length; the selection is cleared exactly when some pop removes the last position holding a selected first occurrence, and the log is the pops with that one selection of None |
| AttributeLists.ListProperty.Overwrite | stemlab/attributes.py:954-961 | the two loops of `set_value` leave exactly the normalised new list, with the selection and the log the set-value specification gives |
| AttributeLists.ListProperty.SetValue | stemlab/attributes.py:949-963 | `set_value` leaves exactly the normalised new list, with the selection and the log of its two loops; a non-empty value reports at least one selection and the last one reported is the selection left; with `call_setup` suspended only a forwarding master runs setup, once per change reported, and `call_setup` is restored |
| AttributeLists.ListProperty.Assign | stemlab/attributes.py:71-80 | assigning a list sets it as `set_value` does, with the same list, selection and log, then runs `value_updated` once more |
| AttributeLists.InsertSelectsNew | stemlab/attributes.py:826-832 | after an insert, the selection is the new element, or an equal one before it |
| Modules.SetupKeys | stemlab/modules.py:91-94 | `setup` assigns exactly the setup attributes given as keywords, each once |
| Modules.Unused | stemlab/modules.py:95-99 | the leftover keywords are those that are not setup attributes |
| Modules.SetupKeysStep | stemlab/modules.py:91-94 | one step of the key loop assigns a key that is still given and consumes it |
| Modules.Walk | stemlab/modules.py:91-95 | a walk in which no key raises succeeds (what it assigns, once per key, is stated by `Modules.WalkSucceeds` and `Modules.WalkSpec`) |
| Modules.WalkSpec | stemlab/modules.py:87-106 | assignment succeeds exactly when no assigned key fails, assigns every key with its value in setup-attribute order, and otherwise raises the first failure |
| Modules.WalkSucceeds | stemlab/modules.py:91-95 | a walk that succeeds assigns exactly the keys still among the keyword arguments, in setup-attribute order and with their values, and none of them raises |
| Modules.WalkFails | stemlab/modules.py:91-95 | a walk that fails raises the error of the first such key that raises |
| Modules.AssignKeys | stemlab/modules.py:91-99 | the key loop performs that assignment and reports the unused keywords |
| Modules.Module.constructor | stemlab/modules.py:262-285 | a new module has no owner, no setup running and no setup calls |
| Modules.Module.DoSetupEnter | stemlab/modules.py:157-158 | entering `do_setup` marks setup as ongoing and changes nothing else |
| Modules.Module.DoSetupExit | stemlab/modules.py:160-166 | leaving `do_setup` clears the flag and logs an exception when one was raised |
| Modules.Module.Setup | stemlab/modules.py:87-106 | when assignment of the keywords fails, setup raises that failure and `_setup` does not run; otherwise the unused keywords are reported, `_setup` runs once, and setup raises what `_setup` raises; afterwards setup is never left ongoing |
| Modules.Module.ValueUpdated | stemlab/attributes.py:93-106 | `value_updated` calls setup exactly when the attribute has `call_setup` and no setup is ongoing, and changes nothing else |
| Modules.Module.SetOwner | stemlab/modules.py:361-385 | the owner setter stores the owner, turns autosave on exactly when freed, reloads the setup attributes when freed, and signals the change |
| Modules.Module.Free | stemlab/modules.py:340-344 | `free` sets the owner to None, with the reload and the signal |
| Modules.Module.ContextExit | stemlab/modules.py:397-408 | leaving the context manager frees the module |
| Modules.SetupKeysPartition | stemlab/modules.py:91-99 | every keyword is either assigned or left over, never both |
| Modules.BaseListsMembers | stemlab/modules.py:66-70 | the base lists collect exactly the attributes of some base |
| Modules.ComposeClassLists | stemlab/modules.py:64-83 | the class's module attributes and setup attributes are the de-duplicated concatenations the metaclass builds |
| Modules.ComposedSetupAttributes | stemlab/modules.py:64-83 | both lists are free of duplicates, and a name is a setup attribute exactly when it belongs to some base's lists, the class's own list or its submodules |
| Modules.SubIndex | stemlab/modules.py:321 | a submodule is found by name exactly when one has that name |
| Modules.SetupAttributesOf | stemlab/modules.py:312-324 | `setup_attributes` is defined exactly when every attribute has a value, lists the setup attributes in order, and holds for each a submodule's own record or else the attribute's value (`Modules.EntryHolds`) |
| Modules.EntriesFrom | stemlab/modules.py:319-323 | the entries from position i on follow the setup attributes from i on, each holding the submodule's record or the attribute's value |
| PyrplUtils.Dedup | stemlab/pyrpl_utils.py:57-66 | the unique list holds exactly the elements of the input |
| PyrplUtils.LastIndex | stemlab/pyrpl_utils.py:59 | the last occurrence of an element |
| PyrplUtils.UniqueList | stemlab/pyrpl_utils.py:57-66 | `unique_list`'s loop computes that unique list |
| PyrplUtils.DedupSpec | stemlab/pyrpl_utils.py:57-66 | the unique list has no duplicates and keeps elements in the order of their last occurrences |
| PyrplUtils.NatStr | stemlab/pyrpl_utils.py:33 | `str` of a number is non-empty |
| PyrplUtils.FirstFree | stemlab/pyrpl_utils.py:32-35 | the lowest number i whose name + str(i) is not yet taken, or none |
| PyrplUtils.NamesOf | stemlab/pyrpl_utils.py:11-36 | at most one name per class |
| PyrplUtils.FreeSlotChosen | stemlab/pyrpl_utils.py:30-35 | a repeated name gets the lowest free number |
| PyrplUtils.NoFreeSlot | stemlab/pyrpl_utils.py:30-35 | a repeated name with no free number adds nothing |
| PyrplUtils.UniqueNames | stemlab/pyrpl_utils.py:11-36 | the naming loop computes those names |
| PyrplUtils.DistinctNamesKept | stemlab/pyrpl_utils.py:27-29 | distinct names are kept as they are |
| PyrplUtils.SmallNumbers | stemlab/pyrpl_utils.py:33 | str(0) and str(1) are '0' and '1' |
| PyrplUtils.RepeatedNamesNumbered | stemlab/pyrpl_utils.py:11-36 | ['pid', 'iq', 'pid'] gives ['pid0', 'iq', 'pid1'] |
| PyrplUtils.NumberedNameCollision | stemlab/pyrpl_utils.py:11-36 | ['pid0', 'pid', 'pid'] gives only two names, so the name list is shorter than the class list |
| PyrplUtils.NumberedNameDuplicated | stemlab/pyrpl_utils.py:11-36 | ['pid', 'pid', 'pid0'] gives ['pid0', 'pid1', 'pid0']: a numbered name after a repeated one is kept even when the repeated name took it, so the names are not unique |
| PyrplUtils.SplitDots | stemlab/pyrpl_utils.py:42 | `split('.')` gives at least one segment, none containing a dot |
| PyrplUtils.SplitJoin | stemlab/pyrpl_utils.py:42 | joining the segments with dots gives the path back |
| PyrplUtils.GetPath | stemlab/pyrpl_utils.py:39-45 | following a path raises only AttributeError, and raises it when the first name is non-empty and not an attribute of the object |
| PyrplUtils.RecursiveGetattr | stemlab/pyrpl_utils.py:39-45 | `recursive_getattr` follows the non-empty segments of the path |
| PyrplUtils.EmptySegmentsSkipped | stemlab/pyrpl_utils.py:43 | empty segments leave the object where it is |
| PyrplUtils.EmptyPathIsRoot | stemlab/pyrpl_utils.py:39-45 | the empty path and '..' give the root |
| PyrplUtils.SetPath | stemlab/pyrpl_utils.py:48-54 | setting a path raises only AttributeError; on success only the attribute named first is added or replaced at the top, every other one is kept, and a one-name path stores the value there |
| PyrplUtils.GetAfterSet | stemlab/pyrpl_utils.py:39-54 | getting a path after setting it gives the value set |
| PyrplUtils.SetEmptyPath | stemlab/pyrpl_utils.py:48-54 | setting the empty path sets the attribute named '' |
| PyrplUtils.DuplicateFilter.constructor | stemlab/pyrpl_utils.py:69-72 | a new filter has seen no record |
| PyrplUtils.DuplicateFilter.Filter | stemlab/pyrpl_utils.py:73-79 | a record passes exactly when it differs from the last one, which it then becomes |
| PyrplUtils.Passes | stemlab/pyrpl_utils.py:73-79 | one pass/drop verdict per record |
| PyrplUtils.PassesIffChanged | stemlab/pyrpl_utils.py:73-79 | in a run of records, each passes exactly when it differs from the one before |
| PyrplUtils.LexTotal | stemlab/pyrpl_utils.py:86 | string ordering is total |
| PyrplUtils.Insert | stemlab/pyrpl_utils.py:82-88 | insertion adds the entry and keeps all the others |
| PyrplUtils.InsertSorted | stemlab/pyrpl_utils.py:82-88 | insertion into a sorted list keeps it sorted |
| PyrplUtils.SortedDict | stemlab/pyrpl_utils.py:82-88 | `sorted_dict` is a permutation of the entries |
| PyrplUtils.SortedDictSorted | stemlab/pyrpl_utils.py:82-88 | `sorted_dict` is sorted by key or by value, as asked |
| PyrplUtils.SortedDictOfSorted | stemlab/pyrpl_utils.py:82-88 | sorting an already sorted list changes nothing |
| Dsp.DspNumbering | stemlab/hardware_modules/dsp.py:8-26 | every DSP input name has a number below 16, and the table names that number by it |
| Dsp.DspNamesAreKeys | stemlab/hardware_modules/dsp.py:8-26 | a name has a DSP number exactly when it is a key of the table |
| Dsp.DspNamesNumbered | stemlab/hardware_modules/dsp.py:8-26 | each of the 16 numbers belongs to a name |
| Dsp.DspNumberInjective | stemlab/hardware_modules/dsp.py:8-26 | no two names share a number |
| Dsp.DspAddrBase | stemlab/hardware_modules/dsp.py:133-136 | a DSP module's base is 0x40300000 plus a multiple of 0x10000; an unknown name raises KeyError |
| Dsp.DspWindowsDisjoint | stemlab/hardware_modules/dsp.py:133-136 | the 0x10000-byte windows of two different DSP modules do not overlap, and all lie in 16 windows |
| Dsp.Collect | stemlab/hardware_modules/dsp.py:61-69 | the collected signals are the keys that are DSP inputs (with their numbers) or have a signal (with it), without duplicates |
| Dsp.Step | stemlab/hardware_modules/dsp.py:71-77 | one resolution step changes only its own key |
| Dsp.Pass | stemlab/hardware_modules/dsp.py:71-77 | a pass over the keys keeps the key set |
| Dsp.Rounds | stemlab/hardware_modules/dsp.py:70-77 | the rounds keep the key set |
| Dsp.ResolvePointers | stemlab/hardware_modules/dsp.py:70-77 | the resolution loop runs four rounds |
| Dsp.ResolveRound | stemlab/hardware_modules/dsp.py:71-77 | one round of the loop is a pass over all keys in order |
| Dsp.AllInputs | stemlab/hardware_modules/dsp.py:57-78 | `all_inputs` collects the signals, then resolves pointers four times |
| Dsp.PassKeepsTerminal | stemlab/hardware_modules/dsp.py:72-73 | a value that is not a key is never changed |
| Dsp.TerminalFrom | stemlab/hardware_modules/dsp.py:70-77 | once a value is not a key, later rounds keep it |
| Dsp.SelfPointerOff | stemlab/hardware_modules/dsp.py:74-75 | a signal pointing to its own key ends as the number of 'off' |
| Dsp.OneHop | stemlab/hardware_modules/dsp.py:76-77 | a signal pointing to a key whose value is a number ends as that number |
| Dsp.EndsWith | stemlab/hardware_modules/dsp.py:111 | `o.endswith(v)` holds exactly when `v` is no longer than `o` and equals its last characters position by position |
| Dsp.FirstEndingWith | stemlab/hardware_modules/dsp.py:111-113 | the first option ending with the value, or none |
| Dsp.Shortcut | stemlab/hardware_modules/dsp.py:107-113 | an option is kept; otherwise the shortcut is an option ending with the value, if any |
| Dsp.ValidateInput | stemlab/hardware_modules/dsp.py:107-120 | with no options the shortcut search raises AttributeError; otherwise input validation fails exactly when no shortcut gives an option and errors are not ignored; an option is kept |
| Dsp.ShortcutFirst | stemlab/hardware_modules/dsp.py:111-113 | a non-option resolves to the first option ending with it |
| Dsp.NoShortcut | stemlab/hardware_modules/dsp.py:107-120 | a value no option ends with raises ValueError, or AttributeError when there are no options |
| Dsp.OutputDirects | stemlab/hardware_modules/dsp.py:128-130 | the output directs are sorted by value |
| Dsp.OutputDirectsOrder | stemlab/hardware_modules/dsp.py:128-130 | they are off, out1, out2, both with values 0 to 3 |
| Scope.LeastAtLeast | stemlab/hardware_modules/scope.py:43-44 | the option nearest above the value is the least option at least the value, or none |
| Scope.GreatestAtMost | stemlab/hardware_modules/scope.py:67-68 | the option nearest below is the greatest option at most the value, or none |
| Scope.Largest | stemlab/hardware_modules/scope.py:50 | `max` of the options |
| Scope.Smallest | stemlab/hardware_modules/scope.py:74 | `min` of the options |
| Scope.ValidateDuration | stemlab/hardware_modules/scope.py:38-50 | a duration becomes the least option at least it, or the longest option when none is; no options raise TypeError |
| Scope.ValidateSamplingTime | stemlab/hardware_modules/scope.py:62-74 | a sampling time becomes the greatest option at most it, or the shortest when none is; no options raise TypeError |
| Scope.ValidateOption | stemlab/hardware_modules/scope.py:38-74 | an option validates to itself |
| Scope.ValidateMonotone | stemlab/hardware_modules/scope.py:38-74 | both validators are monotone |
| Scope.DurationSetsDecimation | stemlab/hardware_modules/scope.py:249-270 | each tabled duration validates to itself, sets the matching sampling time, which sets the matching decimation |
| Scope.Int16 | stemlab/hardware_modules/scope.py:323 | the int16 cast gives a value in [-32768, 32768) |
| Scope.SignFix | stemlab/hardware_modules/scope.py:323-324 | on a 14-bit value, a number in [-8192, 8192) congruent to it modulo 2^14, that is, its 14-bit two's complement reading |
| Scope.RawSampleIsSigned14 | stemlab/hardware_modules/scope.py:323-324 | on a 14-bit word the raw conversion is the 14-bit two's complement |
| Scope.RawSamples | stemlab/hardware_modules/scope.py:318-334 | one raw sample per word read |
| Scope.TriggerDelayWord | stemlab/hardware_modules/scope.py:446-458 | 'immediately' writes the data length; otherwise the delay counts plus half the data length, at least 1 and at most 2^32 - 1 |
| Scope.TriggerSourcesDistinct | stemlab/hardware_modules/scope.py:127-138 | the trigger source names are distinct |
| Scope.TriggerSourcesAt | stemlab/hardware_modules/scope.py:127-138 | sorted by value, the i-th trigger source has value i |
| Scope.ScopeAddresses | stemlab/hardware_modules/scope.py:83 | the control, source and delay registers sit at 0x40100000, 0x40100004 and 0x40100010 |
| Scope.ArmWord | stemlab/hardware_modules/scope.py:441-461 | the control word once armed: bit 0 (armed) and bit 1 (reset) set, every other bit as read |
| Scope.StartWrites | stemlab/hardware_modules/scope.py:439-466 | four one-word writes in order: to the control register, the delay, the arm word to the control register, then the source value |
| Scope.StartRegs | stemlab/hardware_modules/scope.py:439-466 | after the start writes, the control register holds the arm word, the delay and source registers their values, and no other register changes |
| Scope.StartArms | stemlab/hardware_modules/scope.py:439-466 | the first start write sets the reset bit; with registers that read back what was written, after the start the trigger is armed, the delay register holds the delay word and the source register the source's value, no curve is ready, and a curve is acquiring exactly when setup was called |
| Scope.CurveReady | stemlab/hardware_modules/scope.py:387-392 | a curve is ready only after a setup and with the trigger not armed |
| Scope.CurveAcquiring | stemlab/hardware_modules/scope.py:394-401 | a curve is acquiring only after a setup, and after one exactly when it is not ready |
| Scope.ReadyOrAcquiring | stemlab/hardware_modules/scope.py:387-401 | a curve is never both ready and acquiring, and after setup it is one of the two |
| Scope.Scope.constructor | stemlab/hardware_modules/scope.py:82-145 | a scope over the board with the trigger sources table, source 'immediately', setup not called |
| Scope.Scope.SourceValue | stemlab/hardware_modules/scope.py:142-143 | the register value of the current trigger source is its option value |
| Scope.Scope.StartAcquisition | stemlab/hardware_modules/scope.py:433-466 | the start writes reset, delay, arm and source in that order and records the setup time |
| Scope.Scope.SetControlBit | stemlab/hardware_modules/scope.py:119-125 | setting a control bit writes the control word with that bit set |
| Scope.Scope.WriteDelay | stemlab/hardware_modules/scope.py:213 | the delay register receives the delay word |
| Scope.Scope.WriteSource | stemlab/hardware_modules/scope.py:142-143 | the source register receives the option value of the source |
| Scope.Scope.StartRollingAcquisition | stemlab/hardware_modules/scope.py:471-474 | the rolling start makes the writes of a normal start, then writes source 'off' (value 0) and re-arms with the armed control word; the stored source becomes 'off', the setup time is recorded and the trigger reads as armed |
| Scope.Scope.IsCurveReady | stemlab/hardware_modules/scope.py:387-392 | a curve is ready when neither armed nor delaying, after setup |
| Scope.Scope.IsCurveAcquiring | stemlab/hardware_modules/scope.py:394-401 | a curve is acquiring when armed or delaying, after setup |
| Scope.Scope.RawData | stemlab/hardware_modules/scope.py:318-334 | the raw data are the converted 16384 words of a channel buffer |
| Iir.LowBits | stemlab/hardware_modules/iir/iir.py:249-263 | the seven low bits are clear exactly when neither `output_saturation` nor `internal_overflow` holds |
| Iir.OverflowText | stemlab/hardware_modules/iir/iir.py:12-24 | the status text starts with 'u' exactly for an unknown overflow, which reads 'unknown overflow ' and the bit field in decimal, and reads 'no overflow' exactly when there is none |
| Iir.OverflowAsWritten | stemlab/hardware_modules/iir/iir.py:12-24 | as written: no overflow exactly for a zero bit field, 'sum and internal saturation' exactly when any of the seven low bits is set, and an unknown overflow carries the bit field |
| Iir.OverflowStatus | stemlab/hardware_modules/iir/iir.py:248-260 | no overflow exactly for a zero bit field, a sum kind exactly with `output_saturation`, an internal kind exactly with `internal_overflow`, and an unknown overflow carries the bit field |
| Iir.OverflowAsWrittenMerges | stemlab/hardware_modules/iir/iir.py:12-24 | as written, any saturation reads as 'sum and internal saturation', and the single kinds are never reported |
| Iir.OverflowStatusFlags | stemlab/hardware_modules/iir/iir.py:12-24 | the status reports sum saturation exactly when bit 6 is set, internal saturation exactly when a bit from 0 to 5 is, and unknown exactly when only higher bits are |
| Iir.FromDouble | stemlab/hardware_modules/iir/iir.py:265-270 | the two words are the value modulo 2^bitlength |
| Iir.ToFixed | stemlab/hardware_modules/iir/iir.py:273-277 | the fixed-point value is a signed number of the bit length |
| Iir.ToDouble | stemlab/hardware_modules/iir/iir.py:272-279 | `_to_double` scales the fixed-point value by 2^-shift; a bit length under 32 raises |
| Iir.FixedRoundTrip | stemlab/hardware_modules/iir/iir.py:265-279 | a signed value of the bit length survives the round trip, and words survive it up to the unused high bits |
| Iir.SlotColumn | stemlab/hardware_modules/iir/iir.py:345-350 | each word pair k holds the column j that maps to k, never column 2 or 3 |
| Iir.StageWords | stemlab/hardware_modules/iir/iir.py:333-354 | a stage's word pairs hold its coefficients, zero beyond the given rows |
| Iir.StageFilled | stemlab/hardware_modules/iir/iir.py:333-354 | writing a stage's four pairs fills its eight words correctly |
| Iir.Layout | stemlab/hardware_modules/iir/iir.py:333-354 | the coefficient memory is eight words per stage, each the coefficient word of its position |
| Iir.ReadRow | stemlab/hardware_modules/iir/iir.py:299-316 | the getter reads six columns per stage |
| Iir.CoefficientsRoundTrip | stemlab/hardware_modules/iir/iir.py:281-357 | the getter reads column 2 as 0, column 3 as 1, the other columns of stored rows as written scaled by 2^-shift, and unused stages as 0 |
| Iir.ConvertedColumn | stemlab/hardware_modules/iir/iir.py:299-316 | a converted column reads back its scaled value |
| Iir.LayoutPair | stemlab/hardware_modules/iir/iir.py:351-354 | the layout holds each stage's low and high word at positions 8i + 2k and 8i + 2k + 1 |
| Iir.ColumnFromWords | stemlab/hardware_modules/iir/iir.py:306-316 | a column is read from its word pair, negated for the denominator |
| Iir.PairValue | stemlab/hardware_modules/iir/iir.py:345-354 | the negation on write and on read cancel |
| Iir.StoredRoundTrip | stemlab/hardware_modules/iir/iir.py:345-354 | a word pair reads back the stored column value |
| Iir.IirFilter.constructor | stemlab/hardware_modules/iir/iir.py:181-185 | a filter with its constant bit length, shift and stage count, nothing written |
| Iir.IirFilter.SetCoefficients | stemlab/hardware_modules/iir/iir.py:319-357 | too many rows raise and write nothing; otherwise the full layout is written at 0x8000 in one transfer and kept |
| Iir.IirFilter.Coefficients | stemlab/hardware_modules/iir/iir.py:281-317 | the getter returns no stages when loops is 0, None before any write, and otherwise min(loops, stages) rows read from the kept memory |
| Iir.IirFilter.ReadStage | stemlab/hardware_modules/iir/iir.py:299-316 | the inner loop reads one stage's six columns |
| Iir.FillLayout | stemlab/hardware_modules/iir/iir.py:333-354 | the setter's loops produce the layout |
| Iir.StoreStage | stemlab/hardware_modules/iir/iir.py:334-354 | one stage's loop writes its eight words and leaves the rest of the buffer alone |
| IirLists.After | stemlab/hardware_modules/iir/iir.py:96 | the text after the first separator is no longer than the text |
| IirLists.UpTo | stemlab/hardware_modules/iir/iir.py:96 | the text before the first separator holds no separator |
| IirLists.AfterSplit | stemlab/hardware_modules/iir/iir.py:96 | the text after the first separator of a + sep + b is b, when a holds no separator |
| IirLists.UpToWhole | stemlab/hardware_modules/iir/iir.py:96 | a text without the separator is its own first part |
| IirLists.PoleOrZeroIsMaster | stemlab/hardware_modules/iir/iir.py:87-89 | `name.split('_')[1]` of a slave list is the name of its master, 'poles' or 'zeros' |
| IirLists.PoleTest | stemlab/hardware_modules/iir/iir.py:96-97 | as written, the test `pole_or_zero == 'pole'` holds for none of the four lists |
| IirLists.RealNorm | stemlab/hardware_modules/iir/iir.py:91-108 | a real element is never 0 (0 becomes -1); with the pole test holding it is always negative and a positive value is negated; a negative value, and without the test any non-zero value, is kept |
| IirLists.ComplexNorm | stemlab/hardware_modules/iir/iir.py:136-161 | a complex element has a non-zero real part and a non-negative imaginary part, the imaginary part being kept or negated and zero exactly when it was; with the pole test holding the real part is negative; a negative real part, and without the test any non-zero one, is kept |
| IirLists.PositivePoleKept | stemlab/hardware_modules/iir/iir.py:96-102 | as written, a real pole 5.0 is stored as 5.0 and a complex pole 5+3j as it is; with the test holding they would become -5.0 and -5+3j |
| IirLists.NormReals | stemlab/hardware_modules/iir/iir.py:91-108 | every real element is normalised |
| IirLists.NormComplexes | stemlab/hardware_modules/iir/iir.py:136-161 | every complex element is normalised |
| IirLists.NormElement | stemlab/hardware_modules/iir/iir.py:47-57 | a normalised master element is real exactly when it was, has a nonzero real part and a non-negative imaginary part of the same size, and keeps a negative real part (a nonzero one where the pole test fails) |
| IirLists.NormElements | stemlab/hardware_modules/iir/iir.py:47-57 | each master element ends up as the list its imaginary part sends it to normalises it: a real one through the real list, a complex one through the complex list; the master itself only converts to complex |
| IirLists.NormsIdempotent | stemlab/hardware_modules/iir/iir.py:91-161 | normalising twice is normalising once |
| IirLists.Embed | stemlab/hardware_modules/iir/iir.py:65 | reals are complex values with imaginary part 0 |
| IirLists.PartsAppend | stemlab/hardware_modules/iir/iir.py:47-53 | splitting distributes over concatenation |
| IirLists.Split | stemlab/hardware_modules/iir/iir.py:47-53 | the master's loop separates real from complex values in order |
| IirLists.JoinSplit | stemlab/hardware_modules/iir/iir.py:43-65 | rejoining the two parts is a permutation of the original |
| IirLists.SplitJoin | stemlab/hardware_modules/iir/iir.py:43-65 | splitting a joined pair of lists gives the lists back |
| IirLists.ComplexPartsOfComplex | stemlab/hardware_modules/iir/iir.py:50-53 | a list of non-real values splits entirely into the complex part |
| IirLists.RealPartsOfEmbed | stemlab/hardware_modules/iir/iir.py:50-53 | a list of reals splits entirely into the real part |
| IirLists.PartsOfNormElements | stemlab/hardware_modules/iir/iir.py:43-76 | normalising then splitting is splitting then normalising |
| IirLists.MasterAfterSet | stemlab/hardware_modules/iir/iir.py:43-76 | after setting the master, it reads back a permutation of the normalised values |
| IirLists.ReassignKeepsLists | stemlab/hardware_modules/iir/iir.py:43-65 | setting the master from its own value gives back the same slave lists |
| IirLists.PartsLength | stemlab/hardware_modules/iir/iir.py:47-53 | every element of the master value goes to exactly one of the two lists |
| IirLists.Only | stemlab/hardware_modules/iir/iir.py:117-120 | the selections when only one list has one |
| IirLists.PoleZeroLists.constructor | stemlab/hardware_modules/iir/iir.py:215-230 | four empty slave lists over the module, each wired to a distinct list that forwards to its master, hands selections to the module and normalises without negating; nothing selected, no plot update |
| IirLists.PoleZeroLists.SetMaster | stemlab/hardware_modules/iir/iir.py:43-59 | setting poles or zeros stores the normalised complex values in the complex list and the normalised reals in the real list, so the master reads back a permutation of them; the other kind is left alone; setup runs exactly once, after `do_setup`; one plot update per element plus at most one per list; a value with a real element leaves the real list's own selection as the only one recorded, and one with only complex elements does so for the complex list when the real list was empty |
| IirLists.PoleZeroLists.AssignSlaves | stemlab/hardware_modules/iir/iir.py:55-57 | inside `do_setup` the complex then the real slave list is assigned without running setup; the lists hold the normalised parts, the other kind is left alone, and the selection recorded is that of the real list when it gets elements, else that of the complex list when the real list was empty |
| IirLists.PoleZeroLists.AssignReal | stemlab/hardware_modules/iir/iir.py:57 | assigning a real slave list inside `do_setup` stores the normalised value, changes no other list and runs no setup; it either keeps every selection without a plot update, or leaves its own selection as the only one recorded |
| IirLists.PoleZeroLists.AssignComplex | stemlab/hardware_modules/iir/iir.py:56 | the same for a complex slave list |
| IirLists.PoleZeroLists.AssignedSlave | stemlab/hardware_modules/iir/iir.py:110-128 | handing the selections an assignment logged to the handler updates the plot once per selection and runs setup once per selection outside `do_setup`; the last one is the only selection left |
| IirLists.PoleZeroLists.DispatchSelects | stemlab/hardware_modules/iir/iir.py:110-128 | each selection a list logged goes to the handler in order: one plot update each, one setup each outside `do_setup`; without selections nothing changes, otherwise the last one reported is the only one recorded |
| IirLists.PoleZeroLists.DispatchChange | stemlab/hardware_modules/iir/iir.py:110-128 | a change reaches the handler only when it is a selection, which then updates the plot once and is the only selection recorded |
| IirLists.PoleZeroLists.SelectIn | stemlab/attributes.py:856-860 | selecting in one slave list stores the position there, clears the other three, records this list and its position, updates the plot once and, as written, runs setup once unless setup is ongoing |
| IirLists.PoleZeroLists.SelectChanged | stemlab/hardware_modules/iir/iir.py:110-126 | outside a selection in progress, a selection clears the other three lists, records this list and the index, updates the plot once and runs setup once unless setup is ongoing, and leaves the guard down; inside one it changes nothing |
| IirLists.PoleZeroLists.HandleSelect | stemlab/hardware_modules/iir/iir.py:114-126 | with the guard down, the handler clears the other three lists, records the selection, runs the generic `list_changed` (setup once unless ongoing) and updates the plot once, leaving the guard down |
| IirLists.PoleZeroLists.Exclusive | stemlab/hardware_modules/iir/iir.py:115-124 | the guarded block clears the other three lists and records the selection without setup or plot update, and always lowers the guard |
| IirLists.PoleZeroLists.SelectReported | stemlab/hardware_modules/iir/iir.py:125 | as written, the selection passed on to the generic `list_changed` reaches `value_updated`, which with `call_setup` off runs the master's setup once unless setup is ongoing |
| IirLists.PoleZeroLists.DeselectOthers | stemlab/hardware_modules/iir/iir.py:117-120 | the loop clears the selection of every list but the selecting one |
| IirLists.PoleZeroLists.Deselect | stemlab/hardware_modules/iir/iir.py:119 | clearing one list's selection changes no other list |
| IirLists.AssignInSetup | stemlab/hardware_modules/iir/iir.py:55-57 | a slave list assigned inside `do_setup` holds the validated value, runs no setup, reports n to n + 1 selections for n elements, and the last one reported is the selection it keeps |
| IirLists.MapRealNorm | stemlab/hardware_modules/iir/iir.py:91-108 | a list normalising with the test off normalises every element as the real rule says |
| IirLists.MapComplexNorm | stemlab/hardware_modules/iir/iir.py:136-161 | the same for a complex list |
| IirLists.ClearedAll | stemlab/hardware_modules/iir/iir.py:117-120 | after the loop over the four names only the selecting list can still be selected |

## Left out

- Sockets, the network and time are parameters. Connections are scripts of receive events. Connecting, its five attempts and the port checks of `__init__` (stemlab_client.py:50-72) are not modelled: the constructor starts on an established connection.
- Logging, the sound debug beeps, `CLIENT_NUMBER` and `__del__` are left out; they change no modelled state.
- The server's socket setup, `accept`, `send` failures and the `/dev/mem` `open`/`mmap` are left out. An access that leaves the mapped 128 KiB window is modelled as a stop (`MappingFault`) rather than as undefined behaviour.
- MonitorServer.LoadStored: memory maps each word's byte address to that word, so addresses are taken to be word-aligned and words at different addresses do not overlap. In C a store at an unaligned address also rewrites bytes of the neighbouring words, and an unaligned access to device memory faults on ARM; the server takes the address unchecked (monitor_server.c:209).
- Hardware.HardwareModule.Reads: every transfer is taken to reach the board; a client that gives up after five attempts (`None`) is not modelled at the module level.
- PyrplUtils.UniqueNames: it works on the lower-cased class names rather than on classes. Its length is stated only as at most one name per class.
- AttributeLists.AttributeList.DelItemAt: the selection is not shifted when an element before it is deleted, as in the source. The model keeps the stale index.
- Registers.GetLong, Registers.SetLong: the per-word mask is applied to the joined value as the source does. These members do not model numpy's uint32 overflow for masks wider than the register.
- Registers.SelectRegister.Default: the `get_default` scan of the board's value (attributes.py:1189-1198) is not modelled.
- Default `min`/`max` bounds are modelled for `IntRegister` only. `NumberProperty` saturation of list elements and the `FloatRegister` thresholds are not modelled.
- The default element of a list is a single value, standing for `default_element or element_cls.default`.
- `IORegister`, `LedProperty`, `FrequencyRegister`, `PhaseRegister`, `GainRegister`, `PWMRegister`, `ProxyProperty`, `ModuleAttribute`, `StringProperty` and `ComplexProperty` are not modelled.
- Of `FilterRegister`, only the bit layout is modelled. The logarithmic and exponential bandwidth conversions, the correction factors and `valid_frequencies` involve floating point. A stage request carries its sign and its already computed shift.
- Attributes.FloatFromInt: the input is the already rounded `int(round(value * norm))` (or its inverted form). Floating-point rounding is not modelled.
- Modules: `_load_setup_attributes` is recorded as an event (it reads the config file). A keyword whose assignment raises is given by the map of failing keys, and the exception `_setup` raises, if any, by the `setupError` parameter of `Setup`. The metaclass's docstring generation and `_clear` are not modelled.
- Modules.Module.ValueUpdated: it counts a call of setup and takes that call to succeed; a `_setup` that raises inside `value_updated` is not modelled.
- IirLists: only the `selected` setter and the slave assignments reach the exclusive-selection handler. The lists follow the code as written: selections reach the generic `list_changed` tested on 'selecti', and the pole test never holds.
- IirLists.PoleZeroLists.SetMaster, IirLists.PoleZeroLists.AssignSlaves: when the value has only complex elements and the real list held elements before, the final selection is not stated. The real list's pops may or may not report a selection of None, depending on where its selection was.
- Scope.StartArms, Scope.ArmWord, Scope.StartRegs, Scope.Scope.StartRollingAcquisition: registers are storage that reads back the last word written. On the FPGA the reset, armed and delay bits are changed by the hardware (the reset bit clears itself, and the armed bit drops when the trigger fires), so "armed after the start" holds only for a read straight after the writes.
- StemlabClient.MonitorClient.TryNTimes, StemlabClient.MonitorClient.Reads, StemlabClient.MonitorClient.Writes, StemlabClient.MonitorClient.ReceiveReply: these model the intended behaviour, not the code as written. The retry keeps the original request instead of retrying with the previous attempt's result, and the reply loop fails on a closed connection instead of spinning. The code as written is `StemlabClient.TryAsWritten` and `StemlabClient.ReadLoopStepAsWritten` (see "## Findings").
- PyrplUtils.SetPath: objects are values, so two paths that reach the same object do not share an update (aliasing is not modelled).
- StemlabClient: a `send` on the client socket is taken to succeed; a `send` that raises is not modelled (only `recv` raises, through the receive script).
- Dsp: the ambiguity warning is logging. The `SignalModule` branch of `InputSelectProperty.validate_and_normalize` is not modelled. `all_inputs_keys` and the module signals it collects are a parameter, and `signalOf` stands for `recursive_getattr(pyrpl, k + '.signal')()`. The `DspModule` class is not modelled.
- Scope: times are reals. `int(np.round(trigger_delay / sampling_time))` is the parameter `counts`, and `time()` is the parameter `now`. The rest of the scope is not modelled: `np.roll`, the normalised `_data_ch*` properties, `times`, `_get_ch`, `_get_curve`, `wait_for_pretrigger`, `_remaining_time`, `_rolling_mode_allowed`, the `DecimationRegister` update cascade and the `trigger_source` setter.
- Iir.ToDouble: it computes in exact reals, so float64 rounding is not modelled. The `np.round(v * 2**shift)` before `_from_double` is taken as an integer row entry.
- Iir: the b2 and a0 warnings are logging. `_IIRBITS`, `_IIRSHIFT` and `_IIRSTAGES` are constants of the filter object. Rows are required to have six columns. The design code is not modelled: `iir_theory`, `_setup`, `transfer_function`, `select_pole_or_zero`, `_setup_unity` and `_setup_zero`.

## Findings

| source | as written | input that shows it | evidently intended | confidence | as-written member | corrected member |
|---|---|---|---|---|---|---|
| stemlab/stemlab_client.py:145-162 | `try_n_times` assigns each attempt's result to the argument it retries with, so after an attempt that returns None the next attempt is called with None and raises TypeError | a read of one word whose first reply is twelve junk bytes and a close, with a second connection that answers correctly | every attempt retries the original request, and the read returns the word | high, not executed | StemlabClient.RetryAfterDesync | StemlabClient.MonitorClient.TryNTimes |
| stemlab/stemlab_client.py:108-110 | the reply loop of `_reads` appends whatever `recv` returns, so once the peer closes it appends nothing forever | the peer closing while a reply is incomplete | the loop ends and the read fails as a socket error | high, not executed | StemlabClient.ReadLoopSpinsOnClose | StemlabClient.MonitorClient.ReceiveReply |
| stemlab/monitor_server/monitor_server.c:210 | the length is computed from `char` bytes, which sign-extend where `char` is signed, and the clamp then turns the negative sum into 65535 | header bytes 2 and 3 equal to 200 and 0, compiled where `char` is signed | length 200, as on the board's unsigned `char` | low (the board's `char` is unsigned), not executed | MonitorServer.SignedCharMisreadsLength | MonitorServer.FrameLengthOfHeader |
| stemlab/attributes.py:868-873 | `select` catches IndexError, but `list.index` raises ValueError for a missing value, so the error escapes | selecting a value that is not in the list | the selection becomes None | high, not executed | AttributeLists.AttributeList.SelectAsWritten | AttributeLists.AttributeList.SelectValue |
| stemlab/attributes.py:965-973 | `list_changed` tests for the operation 'selecti', which nothing sends, so a selection also runs `value_updated` and with it setup | the `selected` setter reporting the operation 'select' | a selection only launches the signal | high, not executed | AttributeLists.ListProperty.ListChanged | AttributeLists.ListProperty.ListChangedIntended |
| stemlab/hardware_modules/iir/iir.py:96-97 | both normalisations compare `self.name.split('_')[1]`, which is 'poles' or 'zeros', with 'pole', so the test never holds and a positive pole is stored as it is | the real pole 5.0 set through `poles` (also the complex pole 5+3j, iir.py:144-146) | the pole is negated to -5.0, as the docstring and the warning say | high, not executed | IirLists.PositivePoleKept | IirLists.RealNorm |
| stemlab/hardware_modules/iir/iir.py:12-24 | the mask 0b1111111 is tested before 0b1000000 and 0b0111111, so every saturation reads as 'sum and internal saturation' | overflow bit field 64 (output saturation only) | 'sum saturation' | high, not executed | Iir.OverflowAsWrittenMerges | Iir.OverflowStatusFlags |
