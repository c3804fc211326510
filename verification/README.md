# Verified models of mars_wrapper

These Dafny modules model the parts of mars_wrapper that carry its logic, and prove
what a maintainer relies on. Each class or loop of the sources is a class or a method
here, proved against a specification function; the theorems are about those functions,
over all inputs and all runs.

| file | models |
|---|---|
| `StringCast.dfy`, `NumberCast.dfy` (with `Integers.dfy`) | the integer printer and parser of `string_cast.h` |
| `StrUtil.dfy` | `Tokenizer` and `MergeToken` of `strutil.h` |
| `XLogger.dfy` | the type-safe format loops and log groups of `xlogger.h` |
| `ImMessage.dfy`, `LonglinkPacker.dfy` (with `Bytes.dfy`) | the message object, the long-link codec, reassembly of a byte stream |
| `TaskProxy.dfy` | the task table and the engine callbacks, one at a time |
| `TaskInterleaving.dfy` | the same table under any number of threads, one memory access at a time |
| `EchoServer.dfy`, `EchoLoop.dfy` | the echo server: its steps and runs, and the classes that carry them out |

`dafny verify dfyconfig.toml` checks everything.

## Results that are not evident from the code

- `number_cast` recovers a printed value exactly when the target type holds it, but its
  `valid()` flag is set for every printed value when the target has 64 bits, also when
  the value is wrong (`NumberCast.RoundTrip`, `NumberCast.ValidButWrong`).
- The 65-byte cache of `string_cast` fits everything but the most negative 64-bit value
  in base 2, which needs 66 (`StringCast.CacheBound`).
- A stream that arrives in pieces is reassembled, whatever bytes lie behind the receive
  buffer, exactly when no arrival leaves 1 to 11 bytes of a frame in the buffer
  (`LonglinkPacker.ChunkedReassembly`). Four bytes look like a heartbeat, and other short
  rests can be refused for good because the header is read beyond them.
- The message ids of a process stay clear of pushes and heartbeats for the first
  2^32 - 10001 messages; the next one is sent as a heartbeat (`LonglinkPacker.IdsMeanRequests`).
- The lookups outside the mutex are safe with one callback thread and fresh ids: every
  interleaving is free of use after free, deadlock and double free, no lookup adds an
  entry between its two accesses, and every interleaving is equivalent to callbacks that
  happen one at a time (`TaskInterleaving`).
- A logger is written as a C string, so in a group everything behind the first
  terminator is lost. A format that ends in an odd number of percent signs puts one into
  the message, and then the texts merged later are not written: merging conserves the
  written text exactly when nothing follows such a message (`XLogger.MergeWritesAll`,
  `XLogger.FormatHidesLater`, `XLogger.LaterTextLost`).
- Seventeen sequential directives in a format read past the argument array
  (`XLogger.SeventeenRunOver`).
- A logger of the same level as the group loses its assertion when it is merged
  (`XLogger.MergeConserves` says which assertion survives).
- `im_message.h` speaks of a 16-byte header; the structure has three 32-bit fields, so
  the model uses 12 bytes, as the code does.

## Assumptions

- `size_t` and pointers have 64 bits, byte order is little-endian, arithmetic wraps in
  two's complement, `assert` is compiled out, and the locale is "C".
- The engine, which is not part of this model, hands the receive buffer to the unpacker,
  drops `packageLen` bytes after an OK, keeps the buffer after CONTINUE and gives up
  after FALSE. `LonglinkPacker.Drain` and `Feed` are that caller.
- A task's id is its message's id: `TaskProxy.StnCallBack.SendMessage` builds the message,
  then the context, and stores it under that id. The body of `sendMessage` itself is not
  part of this model.
- The engine runs its callbacks on one thread, and parses a response only after the
  unpacker has accepted it. Message ids are fresh: the counter is not synchronised in the
  sources, and it comes round after 2^32 messages.
- Each single access to the task table is atomic, although the sources do not lock the
  lookups. Addresses are not used again after a free.
- A hook given to a logger answers and may rewrite the level and the text; the other fields
  it could change are not modelled. The results on groups are about loggers without a hook.
- The kernel reports at most one event for a socket in a batch, of the registered
  interest or a hang-up or error; `recv` returns at most 999 bytes, because the
  terminator that the echo server writes behind them must stay in the buffer; and
  `accept` returns a descriptor that is not open.

## Model

| member | source | states |
|---|---|---|
| `Integers.TruncDiv` | libs/mars/include/mars/comm/string_cast.h:61 | C++ division: the remainder has the sign of the dividend and is smaller than the divisor |
| `Integers.ClampNearest` | libs/mars/include/mars/comm/string_cast.h:144-154 | clamping to a type gives the nearest value that it holds |
| `StringCast.TableLookup` | libs/mars/include/mars/comm/string_cast.h:55-62 | the 71-character table yields the same digit at 35 + d and 35 - d, in either case |
| `StringCast.IndexWrapCancels` | libs/mars/include/mars/comm/string_cast.h:62 | the intermediate results of the index may wrap around in the type; the index does not |
| `StringCast.StringCastItoa` | libs/mars/include/mars/comm/string_cast.h:43-84 | the buffer holds exactly the text of the value as a C string at the given place, the error text for a bad base, and is otherwise unchanged |
| `StringCast.EmitDigits` | libs/mars/include/mars/comm/string_cast.h:51-64 | the do/while loop leaves the digits of the magnitude in reverse, for every value of every type |
| `StringCast.Finish` | libs/mars/include/mars/comm/string_cast.h:71-83 | sign, terminator and reversal turn the reversed digits into the text |
| `StringCast.ReverseInPlace` | libs/mars/include/mars/comm/string_cast.h:76-82 | the two-pointer loop reverses its stretch of the buffer and touches nothing else |
| `StringCast.TextMeaning` | libs/mars/include/mars/comm/string_cast.h:51-83 | a text is what is printed if and only if it is '-' for negative values only, then digits of the base that evaluate to the magnitude, without leading zero unless the value is zero |
| `StringCast.TextSamples` | libs/mars/include/mars/comm/string_cast.h:43-83 | four printed texts, the one for an invalid base among them |
| `StringCast.NumeralIsNumeral` | libs/mars/include/mars/comm/string_cast.h:60-64 | the emitted digits are digits of the base, have the right value and no leading zero |
| `StringCast.NumeralUnique` | libs/mars/include/mars/comm/string_cast.h:60-64 | a number has only one such numeral |
| `StringCast.TextInjective` | libs/mars/include/mars/comm/string_cast.h:51-83 | the text determines the value, the most negative one included |
| `StringCast.CacheBound` | libs/mars/include/mars/comm/string_cast.h:60-76 | at most 65 bytes are written, terminator included, for every 64-bit value and base, with one exception that takes 66 |
| `StringCast.StringCast.OfInt` | libs/mars/include/mars/comm/string_cast.h:94-100 | the cache holds the printed value; the one value that would overflow it is excluded |
| `StringCast.StringCast.OfPointer` | libs/mars/include/mars/comm/string_cast.h:107 | the cache holds 0x and the address in base 16 |
| `NumberCast.DigitRun` | libs/mars/include/mars/comm/string_cast.h:137 | the digits that strtoimax takes: the longest prefix of digits of the base |
| `NumberCast.NumberFound` | libs/mars/include/mars/comm/string_cast.h:127-142 | a number is found behind any white space, with or without sign and prefix, whatever follows; base 0 reads a leading 0 as octal |
| `NumberCast.NumberCastTo` | libs/mars/include/mars/comm/string_cast.h:129-191 | the value is the nearest that the target holds to the number read, and the flag is set if and only if the target holds it or has 64 bits |
| `NumberCast.NoNumber` | libs/mars/include/mars/comm/string_cast.h:129-142 | a text without a digit gives 0 and no flag |
| `NumberCast.TooSmall` | libs/mars/include/mars/comm/string_cast.h:144-154 | "-300" read as an 8-bit integer is -128 and not valid |
| `NumberCast.OctalBehindSpace` | libs/mars/include/mars/comm/string_cast.h:137 | white space, plus sign and octal digits |
| `NumberCast.HexBeforeText` | libs/mars/include/mars/comm/string_cast.h:175 | a hexadecimal number with text behind it |
| `NumberCast.NumberCast.constructor` | libs/mars/include/mars/comm/string_cast.h:129-154 | the value is the nearest representable one, and valid exactly when a number was found that the type holds; the unsigned class (lines 167-191) alike |
| `NumberCast.NumeralMagnitude` | libs/mars/include/mars/comm/string_cast.h:127-142 | the parser reads any numeral back in its base; in base 0 no prefix is seen in decimal output |
| `NumberCast.PrintedConverted` | libs/mars/include/mars/comm/string_cast.h:137-175 | what strtoimax and strtoumax make of a printed value: saturated for signed targets, wrapped for unsigned ones |
| `NumberCast.RoundTrip` | libs/mars/include/mars/comm/string_cast.h:94-194 | for all values, bases and types: printed to the cache and parsed from the string there, a value is recovered and valid if and only if the target type holds it; the flag is set if and only if that is so or the target has 64 bits |
| `NumberCast.ValidButWrong` | libs/mars/include/mars/comm/string_cast.h:164-194 | two inputs on which the flag is set although the value is another |
| `NumberCast.PointerRoundTrip` | libs/mars/include/mars/comm/string_cast.h:107 | the 0x form of a pointer in the cache parses back to the address |
| `StrUtil.Tokenizer.NextToken` | libs/mars/include/mars/comm/strutil.h:75 | returns the next of the remaining tokens and moves forward; false exactly when none is left, which stays so |
| `StrUtil.Tokenizer.NextTokenBy` | libs/mars/include/mars/comm/strutil.h:76-98 | the same for delimiters that may differ from call to call |
| `StrUtil.Tokenizer.Reset` | libs/mars/include/mars/comm/strutil.h:73 | all tokens of the text are to come again |
| `StrUtil.Tokenizer.constructor` | libs/mars/include/mars/comm/strutil.h:70-71 | all tokens of the text are to come |
| `StrUtil.TokensAreMaximalRuns` | libs/mars/include/mars/comm/strutil.h:76-98 | the tokens are exactly the maximal runs of non-delimiters, in order |
| `StrUtil.TokenCount` | libs/mars/include/mars/comm/strutil.h:76-98 | n characters hold at most ceil(n/2) tokens |
| `StrUtil.SplitConserves` | libs/mars/include/mars/comm/strutil.h:76-98 | the tokens put end to end are the text without its delimiters |
| `StrUtil.MergeToken` | libs/mars/include/mars/comm/strutil.h:112-132 | joins the tokens; fails, and leaves the result alone, exactly for no tokens or an empty delimiter |
| `StrUtil.JoinPlaces` | libs/mars/include/mars/comm/strutil.h:112-132 | where each token of a join starts and ends, and that exactly the delimiter follows it |
| `StrUtil.SplitUndoesJoin` | libs/mars/include/mars/comm/strutil.h:76-132 | splitting a join gives the tokens back if and only if all are non-empty and free of delimiters and the joiner, where used, consists of delimiters |
| `StrUtil.JoinAfterSplitNormalises` | libs/mars/include/mars/comm/strutil.h:76-132 | join after split is idempotent and keeps the tokens and the other characters |
| `XLogger.XMessage.DoTypeSafeFormat` | libs/mars/include/mars/xlog/xlogger.h:369-411 | the loop appends the meaning of the parsed format, in any state of the message |
| `XLogger.XMessage.DoDirective` | libs/mars/include/mars/xlog/xlogger.h:375-410 | one turn: the cursor advances and never passes the terminator, and the directive's text is appended |
| `XLogger.XMessage.Format` | libs/mars/include/mars/xlog/xlogger.h:337-344 | arguments fill an array of 16 padded with null; a null format writes nothing |
| `XLogger.XLogger.DoTypeSafeFormat` | libs/mars/include/mars/xlog/xlogger.h:503-557 | the loop appends the meaning and sets the fatal level just when a directive is bad |
| `XLogger.XLogger.DoDirective` | libs/mars/include/mars/xlog/xlogger.h:509-555 | one turn, with the complaint and the fatal level for a bad directive |
| `XLogger.XLogger.Format` | libs/mars/include/mars/xlog/xlogger.h:470-477 | as for XMessage, on the whole logger state |
| `XLogger.FormatArgsOk` | libs/mars/include/mars/xlog/xlogger.h:519-523 | with at most 16 argument directives every index is inside the array |
| `XLogger.IndicesOkMeaning` | libs/mars/include/mars/xlog/xlogger.h:519-523 | an index leaves the array if and only if a sequential directive has 16 argument directives before it |
| `XLogger.SeventeenRunOver` | libs/mars/include/mars/xlog/xlogger.h:516-523 | a format of seventeen sequential directives reads past the array, one of sixteen does not |
| `XLogger.HasBadMeaning` | libs/mars/include/mars/xlog/xlogger.h:523-555 | a format has a bad directive if and only if one is malformed or its argument is absent or without text |
| `XLogger.ParseAppend` | libs/mars/include/mars/xlog/xlogger.h:507-556 | the directives of f + g are those of f and of g if and only if f does not end in an odd number of percent signs, or g is empty |
| `XLogger.FormatComposes` | libs/mars/include/mars/xlog/xlogger.h:507-556 | formatting f + g is formatting f and then g with the argument counter moved on |
| `XLogger.EscapeUndone` | libs/mars/include/mars/xlog/xlogger.h:545-547 | doubling the percent signs of any text and formatting it gives the text back, on both classes |
| `XLogger.SlotPrefix` | libs/mars/include/mars/xlog/xlogger.h:516-527 | "%_" adds the next argument and "%k" the k-th, and both move the count on by one |
| `XLogger.UnfilledSlot` | libs/mars/include/mars/xlog/xlogger.h:523-542 | an argument that is absent or has no text: nothing or "(null)" in a message (lines 388-400), a complaint with its index in a log |
| `XLogger.BadDirective` | libs/mars/include/mars/xlog/xlogger.h:548-554 | any other character after a percent sign: the sign is dropped from a message (lines 406-409) and complained about in a log, and the character stays |
| `XLogger.FatalExactlyWhenBad` | libs/mars/include/mars/xlog/xlogger.h:503-557 | formatting sets level 5 if and only if a directive is bad, and changes nothing else but the text |
| `XLogger.TemplateWeaves` | libs/mars/include/mars/xlog/xlogger.h:516-547 | escaped literals interleaved with sequential and positional directives yield the literals and the arguments that they name, in any array that holds texts there |
| `XLogger.TemplateCall` | libs/mars/include/mars/xlog/xlogger.h:337-411 | so for a call with up to 16 text arguments, padded with null: it stays inside the array, and on both classes (lines 470-557) it adds the woven text and leaves the level |
| `XLogger.TemplateToMessage` | libs/mars/include/mars/xlog/xlogger.h:337-344 | such a call on XMessage: the text grows by literals and arguments in order |
| `XLogger.TemplateToLogger` | libs/mars/include/mars/xlog/xlogger.h:470-477 | such a call on XLogger: the same, and level and assertion stay |
| `XLogger.ArgumentsAreLiteral` | libs/mars/include/mars/xlog/xlogger.h:523-527 | argument text is not scanned, in any format, malformed ones included: moved into the format as escaped literals it gives the same message, indices and bad directives |
| `XLogger.ArgumentsInlined` | libs/mars/include/mars/xlog/xlogger.h:523-527 | without bad directives the directives may be replaced by the escaped texts, and the array no longer matters |
| `XLogger.XLogger.Empty` | libs/mars/include/mars/xlog/xlogger.h:153 | true exactly when the destructor would write nothing |
| `XLogger.XLogger.MergeInto` | libs/mars/include/mars/xlog/xlogger.h:168-181 | the new state of both loggers; a logger merged into itself loses its text |
| `XLogger.XLogger.Destroy` | libs/mars/include/mars/xlog/xlogger.h:134-144 | what the destructor writes, whatever the hook answers and makes of level and text: the written text ends at its first terminator |
| `XLogger.MergeConserves` | libs/mars/include/mars/xlog/xlogger.h:134-181 | for any list of sources: the message is all the messages in order, the level is the highest, the assertion is that of the first logger to reach it, and the sources have nothing left to write |
| `XLogger.MergeEmits` | libs/mars/include/mars/xlog/xlogger.h:134-181 | a group hands over an assertion if and only if its first logger at the highest level was asserted, with that logger's expression and level and what is seen of all the texts in order, and else a plain line |
| `XLogger.LogLine` | libs/mars/include/mars/xlog/xlogger.h:118-144 | a logger that formats a text writes it as a plain line at its level |
| `XLogger.LogAssertion` | libs/mars/include/mars/xlog/xlogger.h:118-150 | an asserted one writes it as an assertion with its expression, even an empty one |
| `XLogger.MergeWritesAll` | libs/mars/include/mars/xlog/xlogger.h:134-181 | a group writes what its loggers would have written by themselves, in order, if and only if none with something to write comes after one whose message holds a terminator |
| `XLogger.FormatHidesLater` | libs/mars/include/mars/xlog/xlogger.h:548-554 | with arguments free of terminators, formatting puts one into the message if and only if the format ends in an odd number of percent signs |
| `XLogger.LaterTextLost` | libs/mars/include/mars/xlog/xlogger.h:134-181 | after a logger with the format "%" any later text of the group is not written, although by itself it would be |
| `ImMessage.FrameReadsBack` | src/im_message.cpp:4-12 | the fields and the body are read back whatever follows the frame in the buffer |
| `ImMessage.FrameBytes` | src/im_message.cpp:4-12 | the header of one message byte for byte |
| `Bytes.ByteWeights` | src/im_message.cpp:42-55 | the weight of each byte of a header field |
| `ImMessage.MessageIds.NewMessageId` | src/im_message.cpp:27-30 | hands out the counter and advances it, with wrap-around |
| `ImMessage.ImMessage.Build` | src/im_message.cpp:4-12 | the allocated bytes are the frame of the next id and the data |
| `ImMessage.ImMessage.Parse` | src/im_message.cpp:57-64 | copies the buffer into an empty message only and reports the magic number |
| `ImMessage.ImMessage.GetData` | src/im_message.cpp:32-35 | returns the body that the header announces, cut from a longer buffer |
| `ImMessage.ImMessage.GetMessageSize` | src/im_message.cpp:42-45 | header and body length, truncated to 32 bits |
| `ImMessage.ImMessage.IsValid` | src/im_message.cpp:47-50 | compares the magic number |
| `ImMessage.ImMessage.GetMessageId` | src/im_message.cpp:52-55 | reads the id field |
| `ImMessage.ImMessage.Delete` | src/im_message.cpp:19-25 | frees the buffer |
| `ImMessage.IdsAdvance` | src/im_message.cpp:3-30 | the counter runs through the ids from 10000 on, with wrap-around |
| `ImMessage.IdsDistinct` | src/im_message.cpp:27-30 | 2^32 consecutive ids are distinct |
| `LonglinkPacker.UnpackTest` | src/proxy/longlink_packer.cpp:37-54 | verdict and out-parameters for any buffer and any bytes behind it; a heartbeat leaves the command id and body length alone |
| `LonglinkPacker.LonglinkUnpack` | src/proxy/longlink_packer.cpp:81-93 | on OK the whole buffer is handed over, else nothing |
| `LonglinkPacker.LonglinkPack` | src/proxy/longlink_packer.cpp:58-76 | the body as it is, or the four heartbeat bytes for the no-op task |
| `LonglinkPacker.HeartbeatReadsBack` | src/proxy/longlink_packer.cpp:38-76 | the heartbeat that is packed is unpacked as one, to the last byte, with the no-op id |
| `LonglinkPacker.AnswerKinds` | src/proxy/longlink_packer.cpp:44-141 | by its id an unpacked frame is a push, a heartbeat or the answer to the request with that id; its command id is 0 |
| `LonglinkPacker.TaskKindsDisjoint` | src/proxy/longlink_packer.cpp:100-141 | no answer is both push and no-op, and identify answers agree with the packer on heartbeats |
| `LonglinkPacker.IdsMeanRequests` | src/proxy/longlink_packer.cpp:61-136 | exactly which ids that a process hands out are neither pushes nor heartbeats |
| `LonglinkPacker.OkMeansComplete` | src/proxy/longlink_packer.cpp:38-53 | OK if and only if four bytes, or header and body lie in the buffer within the cap, even when the bytes behind a short buffer are arbitrary |
| `LonglinkPacker.VerdictMonotone` | src/proxy/longlink_packer.cpp:44-53 | from 12 bytes on id and length never change, OK and FALSE are permanent, CONTINUE becomes OK exactly at the package length |
| `LonglinkPacker.ShortBufferRefused` | src/proxy/longlink_packer.cpp:38-50 | bytes behind a buffer that ends in the header can make the verdict FALSE |
| `LonglinkPacker.PrefixVerdict` | src/proxy/longlink_packer.cpp:37-54 | exactly which prefixes of a frame are told to continue, and which are OK, whatever bytes follow |
| `LonglinkPacker.DrainFrame` | src/proxy/longlink_packer.cpp:81-93 | a frame in front is delivered with its own id and body although everything behind it is handed over too |
| `LonglinkPacker.StreamReassembles` | src/proxy/longlink_packer.cpp:37-93 | any list of messages within the cap is recovered from the concatenation, to the last byte |
| `LonglinkPacker.ChunkedReassembly` | src/proxy/longlink_packer.cpp:37-93 | for arrival in any pieces, recovered whatever lies behind the buffer at each arrival if and only if no arrival ends 1 to 11 bytes into a frame |
| `LonglinkPacker.EndToEnd` | src/proxy/longlink_packer.cpp:58-93 | the packed bytes of the first 2^32 - 10001 messages give back their bodies and ids |
| `TaskProxy.LifecycleHolds` | src/proxy/stn_callback.cpp:76-114 | in every sequence of callbacks each task gets at most one onSuccess or onError and no onResponse after it |
| `TaskProxy.TableIsOutstanding` | src/proxy/mars_task_proxy.cpp:16-61 | after every sequence the table holds exactly the tasks stored and not ended, unchanged, which fixes every later answer |
| `TaskProxy.AnswersAreFixed` | src/proxy/stn_callback.cpp:57-114 | every Req2Buf of an outstanding task yields its stored bytes; otherwise Req2Buf fails, Buf2Resp answers -1 and OnTaskEnd changes nothing |
| `TaskProxy.EndIsTold` | src/proxy/stn_callback.cpp:97-114 | a listener is told success if and only if its outstanding task ends with ECT_OK, and an error with a code if and only if it ends with that code and another error type; by LifecycleHolds once |
| `TaskProxy.ResponseIsTold` | src/proxy/stn_callback.cpp:76-92 | a listener gets data if and only if a response with that body arrives while its task is outstanding |
| `TaskProxy.OutstandingAnswers` | src/proxy/stn_callback.cpp:57-114 | what each callback about an outstanding task does, call by call: the stored bytes, the body and 0 or -1, the outcome and the removal |
| `TaskProxy.AcceptedIsReadable` | src/proxy/stn_callback.cpp:76-92 | what the unpacker accepts can be parsed as a response if and only if it is no heartbeat |
| `TaskProxy.MarsTaskProxy.StoreContext` | src/proxy/mars_task_proxy.cpp:16-28 | the entry is set and nothing else |
| `TaskProxy.MarsTaskProxy.GetTaskContext` | src/proxy/mars_task_proxy.cpp:43-49 | the entry, or null |
| `TaskProxy.MarsTaskProxy.RemoveTaskContext` | src/proxy/mars_task_proxy.cpp:51-61 | the entry goes, its context and message are freed and no other object is |
| `TaskProxy.StnCallBack.Req2Buf` | src/proxy/stn_callback.cpp:57-70 | appends the stored bytes, or fails; buildEchatTcpMsg (lines 144-147) included |
| `TaskProxy.StnCallBack.Buf2Resp` | src/proxy/stn_callback.cpp:76-92 | hands the cut body to the listener and answers 0, or answers -1 |
| `TaskProxy.StnCallBack.OnTaskEnd` | src/proxy/stn_callback.cpp:97-114 | tells the listener success or error and removes the task; nothing for an unknown one |
| `TaskProxy.StnCallBack.OnPush` | src/proxy/stn_callback.cpp:43-52 | the listener gets the whole buffer, header included, and an id is used up |
| `TaskInterleaving.StepKeepsInv` | src/proxy/mars_task_proxy.cpp:16-61 | every step of every thread keeps the ownership invariant, also between the deletion of a message and the erasure of its entry |
| `TaskInterleaving.InterleavingsAreSafe` | src/proxy/mars_task_proxy.cpp:43-61 | no interleaving reads or frees an object that is not live, and no lookup outside the mutex adds an entry on its second access |
| `TaskInterleaving.ObjectsAreAccountedFor` | src/proxy/mars_task_proxy.cpp:16-61 | allocated is live or freed; the live objects are exactly those that a thread, an entry or the removal holds, and all are freed when every task has ended |
| `TaskInterleaving.FreedOnce` | src/proxy/mars_task_proxy.cpp:51-61 | on every run no address is deleted twice, and the deleted ones are exactly those allocated and no longer live |
| `TaskInterleaving.NoDeadlock` | src/proxy/mars_task_proxy.cpp:16-61 | in every reachable state with a busy thread some busy thread can step |
| `TaskInterleaving.BusyThreadsFinish` | src/proxy/mars_task_proxy.cpp:16-61 | every run is bounded by the operations begun in it; the busy threads of a reachable state finish under any schedule, and no step is left to take exactly when all are idle |
| `TaskInterleaving.StepSimulates` | src/proxy/stn_callback.cpp:57-114 | a step is invisible from the outside or does what one allowed callback does |
| `TaskInterleaving.InterleavingsAreAtomic` | src/proxy/stn_callback.cpp:57-114 | every interleaving has the calls, answers and tasks of some sequence of whole callbacks: those that the engine began, in that order, and stores of the frames that threads were asked to send; so the lifecycle holds for it |
| `EchoServer.HandleKeepsInv` | demo/TcpEchoServer/TcpEchoServer.cpp:106-146 | every event of the registered interest keeps a client's invariant |
| `EchoServer.ConservedIffNothingLost` | demo/TcpEchoServer/TcpEchoServer.cpp:119-128 | sent and pending bytes are the received ones if and only if no send was short |
| `EchoServer.DispatchIsLocal` | demo/TcpEchoServer/TcpEchoServer.cpp:50-56 | a step touches only its own entry and interest, apart from a new client's |
| `EchoServer.AcceptedIsLive` | demo/TcpEchoServer/TcpEchoServer.cpp:88-105 | an accepted client is in the table with read interest and no bytes passed, and nothing else changes |
| `EchoServer.EventsStayOk` | demo/TcpEchoServer/TcpEchoServer.cpp:49-56 | the other events of a batch are still right after a step |
| `EchoServer.Batch` | demo/TcpEchoServer/TcpEchoServer.cpp:46-58 | handling a whole batch keeps the server's invariant |
| `EchoServer.EchoConserves` | demo/TcpEchoServer/TcpEchoServer.cpp:106-146 | on every run, in terms of the events: what send took is a subsequence of what recv returned, with the pending bytes all of it if and only if no send was short; write interest if and only if bytes are pending, which from the first byte on is a length field between 1 and 999 |
| `EchoServer.RemovedWereEchoed` | demo/TcpEchoServer/TcpEchoServer.cpp:106-146 | on every run, at any event of a batch: send took from a client that is removed a subsequence of what recv returned, and all but the bytes pending at a hang-up if and only if no send was short |
| `EchoServer.CompleteSendsConserve` | demo/TcpEchoServer/TcpEchoServer.cpp:106-146 | on every run with complete sends: what send took, followed by the pending bytes, is what recv returned |
| `EchoServer.RemovedExactlyWhen` | demo/TcpEchoServer/TcpEchoServer.cpp:110-142 | a step removes its socket if and only if it is a client's and hung up, or its read failed or found the end of the stream |
| `EchoServer.RemovedForGood` | demo/TcpEchoServer/TcpEchoServer.cpp:31-34 | a removed socket stays out of the table on every run |
| `EchoServer.BatchKeepsRemoved` | demo/TcpEchoServer/TcpEchoServer.cpp:50-55 | also within the batch in which it was removed |
| `EchoServer.RemovedIsIgnored` | demo/TcpEchoServer/TcpEchoServer.cpp:49-56 | a batch does what it would do without the events of a removed socket |
| `EchoLoop.EchoHandler.constructor` | demo/TcpEchoServer/TcpEchoServer.h:31-38 | a handler with uninitialised fields and no bytes passed |
| `EchoLoop.EchoHandler.HandleEvent` | demo/TcpEchoServer/TcpEchoServer.cpp:106-146 | the handler, its buffer, the table and the interest list change as the step says |
| `EchoLoop.SocketsListener.AddSocketHandler` | demo/TcpEchoServer/TcpEchoServer.cpp:19-30 | enters the handler and registers a new descriptor |
| `EchoLoop.SocketsListener.RemoveSocket` | demo/TcpEchoServer/TcpEchoServer.cpp:31-34 | takes the handler out and leaves the registration |
| `EchoLoop.SocketsListener.UpdateSocket` | demo/TcpEchoServer/TcpEchoServer.cpp:35-44 | changes the interest of a registered descriptor |
| `EchoLoop.SocketsListener.AcceptClient` | demo/TcpEchoServer/TcpEchoServer.cpp:88-105 | a new client gets a handler under its own descriptor, with read interest |
| `EchoLoop.SocketsListener.RunOnce` | demo/TcpEchoServer/TcpEchoServer.cpp:46-58 | one turn of the endless loop does what the batch says, with every key its handler's descriptor |

## Left out

- XLogger.XMessage.DoTypeSafeFormat: requires that no sequential directive has 16 argument directives before it, because the sources then read past the argument array.
- XLogger.XMessage.Format: requires the same of its format.
- XLogger.XMessage.DoDirective: requires that the argument index lies inside the array, for the same reason.
- XLogger.XLogger.DoTypeSafeFormat: requires that no sequential directive has 16 argument directives before it, for the same reason.
- XLogger.XLogger.Format: requires the same of its format.
- XLogger.XLogger.DoDirective: requires that the argument index lies inside the array, for the same reason.
- ImMessage.ImMessage.Parse: requires four bytes, because the sources read the magic number of a shorter buffer past its allocation.
- TaskProxy.StnCallBack.Buf2Resp: requires a complete message when a listener waits, because the sources read past their copy of a shorter buffer; AcceptedIsReadable derives it from the unpacker's verdict.
- EchoLoop.EchoHandler.HandleEvent: requires that recv returns at most 999 bytes, because the sources write the terminator past the buffer after 1000, and that a send event finds a length within the buffer, which EchoConserves shows on every run.
- TaskProxy.MarsTaskProxy.StoreContext: requires a live context that no other entry names, because a context under two ids is freed twice; a null context is never stored.
- StringCast.StringCast.OfInt: excludes the most negative 64-bit value in base 2, for which the sources write past the cache.
- TaskInterleaving.InterleavingsAreSafe: each single access to the table is atomic; the data race inside std::map is not modelled.
- TaskInterleaving.BeginStep: excludes an incomplete response for an id whose entry is still null; the engine gets a task only after it has been stored.
- TaskInterleaving: two threads that draw the same id from the unsynchronised counter are excluded, and one callback thread is assumed.
- TaskProxy.MarsTaskProxy: contexts and messages are entries of two maps from addresses, so that a read after a free is visible; object layout is not modelled.
- The Mars engine, its reconnection and retry logic, and AutoBuffer: bodies not in the repository. A buffer is a sequence of bytes, empty when packing starts.
- Heartbeats inside a stream of data frames: a heartbeat glued to a frame is read as part of one.
- shortlink_pack, AppCallBack, StnCallBack's fixed answers, singletons, listener registration and reset/redoTasks: thin glue.
- Float, bool and string casts, printf-style formatting and scope tracing: library behaviour and clock input.
- Unprefixed octal and hexadecimal text through the base-0 parser: not meant to be read back.
- The echo server's set-up (socket, bind, listen), its printing, and TcpClient: system calls.
- XScopeTracer, the logging macros and the tag and source position fields of a logger: they do not affect the properties above.
