# Verified models of the IQRF daemon

Dafny models of the parts of the IQRF gateway daemon that decide something: its state machines, its
codecs, and the JSON engine that every JSON message goes through. Each source file has its own module.
What the source does step by step is a class or a method with loops, proved against a function; what
the source promises is then proved of the function, for every input, every run or every interleaving.

`dafny verify dfyconfig.toml` checks the whole project.

| File | Models |
|---|---|
| `JsonGrammar.dfy`, `JsonReader.dfy`, `JsonEvents.dfy` | the recursive and the pushdown JSON parser, on one grammar |
| `JsonLanguage.dfy` | the JSON language by its tokens (RFC 8259) and their characters, apart from any parser |
| `JsonOutcomes.dfy` | every outcome of the parser with any flags, error codes included, by which token may follow which |
| `JsonDocument.dfy`, `JsonDom.dfy` | the document: replaying events on a stack of values, parsing into a root |
| `JsonInteger.dfy`, `JsonNumber.dfy`, `Decimal.dfy` | integer literals, and the cells and flags of numbers |
| `JsonPointer.dfy`, `Utf8.dfy` | JSON pointers (RFC 6901) in string and URI form, and UTF-8 (RFC 3629) |
| `PoolAllocator.dfy` | the pool allocator and its chunks |
| `Crc.dfy`, `UdpFrame.dfy` | CRC-CCITT and the UDP frames it protects, with their handler |
| `Scheduler.dfy`, `Cron.dfy`, `Patterns.dfy` | the two indexes of the scheduler, its timer, and time patterns with their nicknames |
| `TaskQueue.dfy` | the task queue under every interleaving of clients and worker |
| `PulseMeters.dfy`, `PulseMeterService.dfy` | pulse-meter synchronisation: the steps of both threads, and the handlers as runs of them |
| `Confirmations.dfy` | meter confirmations in ten-byte bitmaps |
| `ModeProtocol.dfy`, `ModeMachine.dfy` | the daemon's modes: the steps of commander, worker and clients, and the methods as runs of them |
| `Runs.dfy`, `Options.dfy` | runs of a protocol, and the `Option` type |

## What the proofs found

- The two JSON parsers report different codes, though at the same offset and after the same events, for
  exactly the texts whose first token is one of `]`, `}`, `,` and `:` (`JsonGrammar.MisplacedStart`); `]`
  alone is one (`JsonGrammar.BracketAlone`).
- The wrap-around test of a pointer's index misses numbers: 5000000000 gets an index
  (`JsonPointer.OverflowUnnoticed`). `JsonPointer.WrappedIndex` says which numerals get one, and which one.
- The pool allocator checks none of its sums for wrapping. `Serves` is the test that it does not make: a
  request gets bytes of the head's own exactly when it holds (`PoolAllocator.Pool.Malloc`). The greatest size
  gets a block with none of its bytes (`PoolAllocator.Pool.MallocGreatest`).
- The frame decoder does not compare the announced length with the frame's own. What lies behind a frame's
  terminator decides how it is decoded exactly when part of the announced payload is missing, or the checksum
  is and its upper byte would be 0 like the terminator (`UdpFrame.ReadsWithin`). A frame that announces three
  bytes is accepted with two (`UdpFrame.ShortFrame`).
- The timer's second look compares with the next deadline, not with the clock, so a task that is added
  between a pop and that look fires early when it is due before that deadline and nothing is overdue
  (`Scheduler.Scheduler.LookAgain`): one for second 20 fires at second 10 (`Scheduler.FiresEarly`). A pattern
  is then filed with a delay found at the clock and counted from the deadline, and misses its second unless
  the two agree (`Scheduler.Shifts`, `Scheduler.SecondMissed`).
- A time item `5/*`, which the documentation of `daemon/Scheduler/Scheduler.h` gives as an example, is
  refused (`Cron.StarAfterSolidus`): what follows the solidus must be a positive number, and what precedes it is
  never read (`Cron.SolidusAccepted`). An item with a solidus and no multiple in range, such as day `/40`,
  fits every value (`Scheduler.SolidusFits`, `Scheduler.FortiethDay`).
- The nicknames `@yearly`, `@annually` and `@monthly` are refused: their patterns have 0 for the day of the month,
  which is out of range (`Patterns.NicknamesRefused`). The others mean what they say (`Patterns.NicknamesFit`). A year
  in a pattern is compared with the years since 1900, so 2020 is met in 3920 (`Patterns.YearSince1900`).
- A meter poll can be left in the scheduler with no handle that names it: the scheduler's worker resets a
  handle that the queue's worker has assigned since it was read (`PulseMeters.OrphanReached`). That does not
  happen as long as no handle is assigned between that reading and that reset (`PulseMeters.NoOrphans`).
- Confirmations write outside their ten bytes, or confirm other meters, exactly when a set bit is not in
  the block of the one before or the next, or is above 255 (`Confirmations.ConfirmMeters`); bit 160 alone is
  such a bitmap (`Confirmations.LoneNotConfirmed`).
- The DPA handler can be deleted while a transaction is calling it: by a change to service mode, when the
  transaction did not get the mode mutex (`ModeProtocol.DanglesReached`), and by the daemon's stop, which does
  not take it, even when it did (`ModeProtocol.StopDanglesReached`). A transaction that got the mutex is safe
  as long as the daemon does not stop under it (`ModeProtocol.LockedSafe`).
- A command that waits for its probe when the daemon stops the queue waits for ever, with the mode mutex
  (`ModeProtocol.ProbeStuck`, `ModeProtocol.StuckReached`).

## Model

| member | source | states |
|---|---|---|
| JsonReader.Reader.Parse | daemon/include/rapidjson/reader.h:471-502 | the recursive parser reports what the grammar says: acceptance, error code and offset, and every event with its counts |
| JsonReader.Reader.IterativeParse | daemon/include/rapidjson/reader.h:1805-1837 | the pushdown parser reports what the same grammar says, but for one error code, and leaves its stack empty |
| JsonReader.Reader.Transit | daemon/include/rapidjson/reader.h:1632-1781 | one transition: what is left to parse in the new state and stack, after the events published, is what was left before; the stack moves by one frame |
| JsonReader.ActsSpell | daemon/include/rapidjson/reader.h:1639-1778 | every transition keeps the frames on the stack spelling the brackets that the events have left open, and closes each bracket with its own kind |
| JsonReader.ParseBoth | daemon/include/rapidjson/reader.h:471-502 | for every text and flags both parsers publish the same events, accept the same texts and report the same offsets; their results differ exactly when the text starts misplaced |
| JsonGrammar.MisplacedStart | daemon/include/rapidjson/reader.h:1783-1802 | the grammar of the pushdown parser differs from the other exactly for texts whose first significant character is one of four, and then by the code only |
| JsonGrammar.BracketAlone | daemon/include/rapidjson/reader.h:1783-1802 | the text `]` is one of them |
| JsonReader.Reader.ParseObject | daemon/include/rapidjson/reader.h:575-639 | an object, as the grammar has it, with the number of its members |
| JsonReader.Reader.ParseArray | daemon/include/rapidjson/reader.h:643-688 | an array, as the grammar has it, with the number of its elements |
| JsonReader.Reader.ParseValue | daemon/include/rapidjson/reader.h:1374-1388 | a value of any kind, as the grammar has it |
| JsonReader.Reader.SkipWhitespaceAndComments | daemon/include/rapidjson/reader.h:546-571 | white space, and comments when the flag allows them; an unclosed comment is an error at its place |
| JsonLanguage.Language | daemon/include/rapidjson/reader.h:471-688 | without trailing commas, and read to its end, a text is accepted exactly when its characters spell the tokens of some tree, and its events are that tree's |
| JsonLanguage.SpelledAccepted | daemon/include/rapidjson/reader.h:471-688 | every text that spells a tree is accepted, with that tree's events |
| JsonLanguage.AcceptedSpells | daemon/include/rapidjson/reader.h:471-688 | every text that the parser accepts spells some tree, token by token |
| JsonLanguage.StandsAt | daemon/include/rapidjson/reader.h:690-727 | the token read at a place is the one whose characters stand there: `true`, `false` and `null` letter by letter, one of six marks, or what a scanner takes after a quote or a number's first character, and nothing else |
| JsonLanguage.BetweenSkips | daemon/include/rapidjson/reader.h:545-571 | what is skipped is white space, of four characters, and, when they are allowed, comments up to the first end mark or the end of the line |
| JsonOutcomes.OutcomeExact | daemon/include/rapidjson/reader.h:471-688 | for all flags, the parser's result, be it the end and the events or the code, the offset and the events before it, is the one that the tokens of the text have: an accepted text is a whole document in which every token may follow those before it; a refused one stops where no token that may follow stands |
| JsonOutcomes.DocumentTraced | daemon/include/rapidjson/error/en.h:38-64 | every error code says what was missing: a value, a name after a brace or comma, a colon after a name, a comma or the bracket's own end after a value, nothing more after the root, or the end of a comment |
| JsonOutcomes.Same | daemon/include/rapidjson/reader.h:471-688 | a text has one outcome only, with one code at one offset |
| JsonOutcomes.UnfinishedComments | daemon/include/rapidjson/reader.h:545-571 | skipping fails exactly at a solidus that begins no comment, or at the end of the text in a comment that does not end |
| JsonDocument.ReplayAccept | daemon/include/rapidjson/document.h:1818-1855 | replaying the events of any value pushes exactly that value and leaves the stack below as it was |
| JsonDocument.Replay | daemon/include/rapidjson/document.h:2383-2423 | the events of any well-formed tree push its value, whatever is on the stack |
| JsonDom.DocumentTree | daemon/include/rapidjson/document.h:2205-2215 | the events of every accepted text are those of one well-formed tree; the events before an error never pop more than there is |
| JsonDom.Document.ParseStream | daemon/include/rapidjson/document.h:2205-2215 | after an accepted text exactly one value was on the stack, and it is the root; after an error the root is as before; the stack is empty either way |
| JsonDom.Document.EndArray | daemon/include/rapidjson/document.h:2419-2423 | the elements, in order, become the array below them |
| JsonDom.Document.EndObject | daemon/include/rapidjson/document.h:2411-2415 | names and values, in order, become the object below them |
| JsonDom.Document.Handle | daemon/include/rapidjson/document.h:2383-2423 | each handler function makes the step of the stack machine; a scalar's pushes the value that the event carries, a raw number's its digits as a string |
| JsonDom.Clone | daemon/include/rapidjson/document.h:1818-1855 | a document that takes the events of a value has that value on top of its stack, and nothing else changed |
| JsonInteger.ParseInteger | daemon/include/rapidjson/reader.h:1130-1221 | for every text: no digit, a number too big, a literal that goes on, or an event that carries exactly the integer denoted; outside -2^63..2^64-1 it is a double |
| JsonInteger.Accumulate32 | daemon/include/rapidjson/reader.h:1132-1168 | the 32-bit accumulator holds the digits taken, never wraps, and stops exactly when the next digit would not fit |
| JsonInteger.Accumulate64 | daemon/include/rapidjson/reader.h:1187-1212 | the same for the 64-bit accumulator, which starts where the other stopped |
| JsonInteger.AccumulateDouble | daemon/include/rapidjson/reader.h:1214-1221 | the rest of the digits; refused exactly when the value has passed a tenth of the largest double and a digit is left |
| JsonInteger.EventExact | daemon/include/rapidjson/reader.h:1354-1367 | negating in 32 or 64 bits gives the denoted integer, so the event carries it |
| JsonNumber.ConstructorsHold | daemon/include/rapidjson/document.h:681-717 | whichever constructor built an integer, the four type tests answer by its range and the accessors give it back |
| JsonNumber.HoldsDetermines | daemon/include/rapidjson/document.h:994-998 | two cells that hold the same integer have the same bits and flags, whatever built them |
| JsonNumber.PublishBuild | daemon/include/rapidjson/document.h:1847-1853 | the event published for a number carries it exactly, and building from that event gives the same cell |
| JsonPointer.ParsePrint | daemon/include/rapidjson/pointer.h:941-972 | parsing the printed form of a pointer gives its tokens back, names and indices |
| JsonPointer.PrintParse | daemon/include/rapidjson/pointer.h:802-932 | printing what an accepted string parses to gives the string back |
| JsonPointer.ParsePrintUri | daemon/include/rapidjson/pointer.h:941-972 | parsing the URI form of a pointer gives its tokens back |
| JsonPointer.PrintUriUtf8 | daemon/include/rapidjson/pointer.h:959-966 | the URI form exists exactly when every name is UTF-8 |
| JsonPointer.ParsedIndexed | daemon/include/rapidjson/pointer.h:895-917 | every token of a parsed pointer has the index of its name |
| JsonPointer.TildeMeans | daemon/include/rapidjson/pointer.h:871-876 | `~0` is the byte 7E and `~1` the byte 2F; any other tilde is refused |
| JsonPointer.TripleMeans | daemon/include/rapidjson/pointer.h:991-1011 | a percent sign and two digits are the byte whose upper half the first is |
| JsonPointer.HexMeans | daemon/include/rapidjson/pointer.h:991-1011 | a hexadecimal digit, in either case, is its value |
| JsonPointer.PlainMeans | daemon/include/rapidjson/pointer.h:790-792 | the characters that the URI form does not encode, by their codes |
| JsonPointer.ByteMeans | daemon/include/rapidjson/pointer.h:841-890 | any other byte is itself, or refused where the URI form would encode it |
| JsonPointer.NumericMeans | daemon/include/rapidjson/pointer.h:897-902 | an index is a zero, or digits not led by one, as section 4 of RFC 6901 has it |
| JsonPointer.IndexExact | daemon/include/rapidjson/pointer.h:901-917 | the index of a numeral is its number exactly when that fits 32 bits; no other name has an index |
| JsonPointer.WrappedIndex | daemon/include/rapidjson/pointer.h:907-914 | the wrap test passes exactly the numerals whose prefixes, each taken modulo 2^32, never fall; the index is then the number modulo 2^32 |
| JsonPointer.OverflowUnnoticed | daemon/include/rapidjson/pointer.h:907-914 | a numeral that does not fit 32 bits and has a valid index all the same |
| JsonPointer.PercentIs | daemon/include/rapidjson/pointer.h:991-1014 | taking up to four triples through the validator, and looking at the stream's flag, finds exactly the percent-encoded sequences |
| JsonPointer.FirstTake | daemon/include/rapidjson/pointer.h:991-1011 | near the end of the text the stream stops after one byte, which the name buffer has room for |
| JsonPointer.Pointer.constructor | daemon/include/rapidjson/pointer.h:802-932 | parsing writes inside a name buffer as long as the text and a token array as long as the text has solidi, which an accepted text fills; it ends with the names the text denotes, each with its zero and its index, or with the error and its offset |
| JsonPointer.Pointer.ReadName | daemon/include/rapidjson/pointer.h:837-894 | the inner loop reads the name up to the next solidus, and writes no further than it has read |
| JsonPointer.Pointer.ReadIndex | daemon/include/rapidjson/pointer.h:901-917 | the loop over the digits computes the index of the name |
| JsonPointer.Pointer.DecodePercent | daemon/include/rapidjson/pointer.h:844-862 | decodes a percent-encoded sequence into the buffer, or refuses it |
| JsonPointer.Pointer.Stringify | daemon/include/rapidjson/pointer.h:941-972 | prints the names of a pointer |
| JsonPointer.Pointer.StringifyUriFragment | daemon/include/rapidjson/pointer.h:941-972 | prints the URI form, or fails exactly when there is none |
| JsonPointer.Pointer.Equals | daemon/include/rapidjson/pointer.h:334-348 | two valid pointers are equal exactly when their names are; an invalid one equals none |
| Utf8.EncodeWellFormed | daemon/include/rapidjson/encodings.h:102-121 | every scalar value's encoding is a well-formed sequence for it |
| Utf8.WellFormedEncodes | daemon/include/rapidjson/encodings.h:146-176 | every well-formed sequence is the encoding of its scalar value: no overlong form, no surrogate, nothing past 10FFFF |
| Utf8.SequenceIsEncoding | daemon/include/rapidjson/encodings.h:146-176 | a sequence is recognised at a place exactly when a scalar value's encoding stands there |
| Utf8.Decode | daemon/include/rapidjson/encodings.h:146-176 | decoding succeeds exactly at a well-formed sequence, with its code point, and consumes just that |
| Utf8.Validate | daemon/include/rapidjson/encodings.h:179-202 | validating accepts the same sequences and copies what it consumed |
| Utf8.MatchesIs | daemon/include/rapidjson/encodings.h:204-220 | the byte classes and masks of the automaton are the well-formed sequences |
| Utf8.DecodeEncodeAll | daemon/include/rapidjson/encodings.h:102-176 | decoding the encoding of a list of scalar values gives the list back |
| Utf8.EncodeDecodeAll | daemon/include/rapidjson/encodings.h:102-176 | a text that decodes is the encoding of what it decodes to |
| PoolAllocator.Pool.Malloc | daemon/include/rapidjson/allocators.h:176-188 | for every size: null exactly for size 0 or when a chunk is needed and refused; the block has the head chunk's own bytes exactly when no sum of sizes wraps, and is then aligned and apart from every live block |
| PoolAllocator.Pool.MallocGreatest | daemon/include/rapidjson/allocators.h:176-188 | a request of 2^64 - 1 bytes on a pool with a head gets the head's top, and the bytes are in no chunk |
| PoolAllocator.Pool.Realloc | daemon/include/rapidjson/allocators.h:191-222 | a live block, with the size it was last given, is kept, shrunk, grown in place only if it is the head's last, or moved apart from every live block; it has the bytes asked for exactly when no sum wraps; then its contents are kept and no other byte changes |
| PoolAllocator.Pool.Provide | daemon/include/rapidjson/allocators.h:176-183 | room for the request is found or made, or a sum wraps and the request passes the end of the head |
| PoolAllocator.Pool.AddChunk | daemon/include/rapidjson/allocators.h:237-249 | a new head chunk before the others, or nothing changes; the state stays valid as long as header and capacity do not wrap |
| PoolAllocator.Pool.HeadersUntouched | daemon/include/rapidjson/allocators.h:176-188 | in every valid state no live block touches the header of any chunk, and each lies inside one chunk |
| PoolAllocator.Pool.Clear | daemon/include/rapidjson/allocators.h:145-153 | every chunk but the user's buffer is freed, once, in order; the buffer is empty again |
| PoolAllocator.Aligned | daemon/include/rapidjson/rapidjson.h:273 | rounding a size up is exact up to the last size that leaves a word, and gives 0 beyond |
| CrcCcitt.ChecksumDivides | daemon/UdpMessaging/crc.h:29-43 | the table-driven checksum of any message is the remainder of its bits times x^16 by the generator, by long division |
| CrcCcitt.Generator | daemon/UdpMessaging/crc.h:91-102 | the generator is x^16 + x^12 + x^5 + 1: by long division it leaves nothing of itself |
| CrcCcitt.UpdateShifts | daemon/UdpMessaging/crc.h:61-73 | one table step is eight shifts of the register |
| CrcCcitt.UpdateInjective | daemon/UdpMessaging/crc.h:61-73 | each step can be undone: the next checksum determines the one before |
| CrcCcitt.ByteChange | daemon/UdpMessaging/crc.h:29-43 | altering any one byte of a message of any length alters its checksum |
| CrcCcitt.PairChange | daemon/UdpMessaging/crc.h:29-43 | altering any two adjacent bytes, or one of them, alters the checksum |
| CrcCcitt.AppendedChecksum | daemon/UdpMessaging/crc.h:29-43 | a message and two more bytes have checksum 0 exactly when these are the message's checksum |
| CrcCcitt.Crc.FillEntry | daemon/UdpMessaging/crc.h:91-102 | the inner loop computes the table's entry: eight shifts of the byte |
| CrcCcitt.Crc.UpdateCrc | daemon/UdpMessaging/crc.h:61-73 | the table lookup makes the step |
| CrcCcitt.Crc.GetCrc | daemon/UdpMessaging/crc.h:29-43 | the loop computes the checksum of the buffer |
| UdpFrame.EncodeIs | daemon/UdpMessaging/UdpMessaging.cpp:152-167 | what a frame holds: address, length, payload, checksum, and the other header bytes as they were |
| UdpFrame.WireFormat | daemon/UdpMessaging/UdpMessaging.cpp:152-167 | a frame byte for byte: address 20, six header bytes as they were, length and checksum with their upper bytes first, around the payload |
| UdpFrame.Rejections | daemon/UdpMessaging/UdpMessaging.cpp:169-186 | a frame is rejected for being under 11 bytes, else for its address, else for announcing more than 1013 bytes |
| UdpFrame.DecodeEncode | daemon/UdpMessaging/UdpMessaging.cpp:169-194 | decoding an encoded payload gives it back exactly when it fits, 1013 bytes |
| UdpFrame.EncodeDecode | daemon/UdpMessaging/UdpMessaging.cpp:152-194 | encoding what an accepted frame holds over its own header gives the same frame |
| UdpFrame.CorruptionNoticed | daemon/UdpMessaging/UdpMessaging.cpp:188-191 | an accepted frame with one byte or two adjacent bytes altered, its length as before, is rejected |
| UdpFrame.ReadsWithin | daemon/UdpMessaging/UdpMessaging.cpp:181-193 | two continuations of a frame in memory, both after the string's terminator, are decoded differently exactly when part of the announced payload is missing, or the whole checksum is and its upper byte is 0; any other frame that is accepted has the whole payload |
| UdpFrame.ShortAccepted | daemon/UdpMessaging/UdpMessaging.cpp:181-193 | each such frame is accepted if the right bytes follow its terminator, with what it has of the payload |
| UdpFrame.ShortFrame | daemon/UdpMessaging/UdpMessaging.cpp:181-193 | eleven bytes that announce three are accepted with two |
| UdpFrame.ReplyIs | daemon/UdpMessaging/UdpMessaging.cpp:92-149 | every reply decodes to the identification on command 1, the status on command 2 and nothing on others; it keeps the packet number, sets the top bit of the command, and acknowledges a write, or refuses an unknown command |
| UdpFrame.UdpMessaging.EncodeMessage | daemon/UdpMessaging/UdpMessaging.cpp:152-167 | the byte string edited in place is the encoded frame |
| UdpFrame.UdpMessaging.DecodeMessage | daemon/UdpMessaging/UdpMessaging.cpp:169-194 | the checks in order, and the payload |
| UdpFrame.UdpMessaging.HandleMessageFromUdp | daemon/UdpMessaging/UdpMessaging.cpp:75-150 | a rejected frame queues nothing; an accepted one queues exactly its reply, which decodes to what its command asks for, and is forwarded exactly when it is a write and the channel is held |
| UdpFrame.UdpMessaging.SendDpaMessageToUdp | daemon/UdpMessaging/UdpMessaging.cpp:32-41 | a DPA packet is queued as one encoded frame with command 4 and no other header bytes |
| Scheduler.Scheduler.AddUnlocked | daemon/Scheduler/Scheduler.cpp:151-172 | a record is filed once by time and once by a handle that was free, non-zero and its own even after redraws; both indexes still agree |
| Scheduler.Scheduler.AddScheduleRecord | daemon/Scheduler/Scheduler.cpp:174-186 | the same under the lock, and the timer is told |
| Scheduler.Scheduler.FileByHandle | daemon/Scheduler/Scheduler.cpp:163-169 | draws until a handle is free, and files the record by it |
| Scheduler.Scheduler.RemoveTask | daemon/Scheduler/Scheduler.cpp:356-362 | the owner's call removes exactly that record from both indexes; any other call changes nothing |
| Scheduler.Scheduler.RemoveTasks | daemon/Scheduler/Scheduler.cpp:364-372 | removes exactly the records of these handles that the client owns |
| Scheduler.Scheduler.RemoveAllMyTasks | daemon/Scheduler/Scheduler.cpp:342-354 | removes exactly the client's waiting records, and their handles |
| Scheduler.Scheduler.Expire | daemon/Scheduler/Scheduler.cpp:250-286 | one critical section of the timer pops the earliest record if it is overdue, and files it again exactly when its next key is not in the past |
| Scheduler.Scheduler.Pass | daemon/Scheduler/Scheduler.cpp:229-290 | with no client between, one turn of the outer loop pops at most one record, and fires it if its pattern matches |
| Scheduler.Scheduler.Drain | daemon/Scheduler/Scheduler.cpp:229-303 | with the clock standing still, turns pop every overdue entry once, in key order and insertion order, push exactly those whose pattern matches to the task queue, then stop with the smallest key as the deadline |
| Scheduler.PopKeepsDiscipline | daemon/Scheduler/Scheduler.cpp:261-273 | after any history, a pop keeps the firing discipline: once only for an exact-time record, and always waiting with keys more than a period apart for a recurring one |
| Scheduler.AddKeepsDiscipline | daemon/Scheduler/Scheduler.cpp:158-160 | an added record keeps it too |
| Scheduler.RemoveKeepsDiscipline | daemon/Scheduler/Scheduler.cpp:202-212 | and so does a removal |
| Scheduler.PopBelow | daemon/Scheduler/Scheduler.cpp:261-270 | a pop takes one of the entries below the clock and adds none, so their number decreases |
| Scheduler.SecondLook | daemon/Scheduler/Scheduler.cpp:292-303 | for whatever waits by then, the second look pops something exactly when some key is below the deadline, which no entry that waited before has |
| Scheduler.Scheduler.LookAgain | daemon/Scheduler/Scheduler.cpp:248-303 | after any adds and removals the second look pops a record exactly when some key is below the deadline; that entry did not wait at the first look, and it fires early exactly when nothing that waits is overdue; a pattern is filed again as of the deadline |
| Scheduler.Shifts | daemon/Scheduler/Scheduler.cpp:261-273 | a pattern's new key has a second that the pattern allows exactly when counting the delay from the second of the deadline gives one; with a single second, exactly when clock and deadline show the same second |
| Scheduler.SecondMissed | daemon/Scheduler/Scheduler.cpp:615-646 | second 30, looked for at second 10 and counted from the 40th, is filed for second 0 |
| Scheduler.FiresEarly | daemon/Scheduler/Scheduler.cpp:248-303 | an exact-time task for second 20, added between the two looks, fires at clock reading 10 |
| Scheduler.ScheduleRecord.GetNext | daemon/Scheduler/Scheduler.cpp:615-668 | the next key of each kind of record; a pattern's is the clock plus the least delay to an allowed second |
| Scheduler.ScheduleRecord.VerifyTimePattern | daemon/Scheduler/Scheduler.cpp:670-693 | a pattern fires exactly when minute, hour, day, month, year and day of the week of the clock each fit their own item |
| Scheduler.SolidusFits | daemon/Scheduler/Scheduler.cpp:683-693 | a field fits an item with a solidus exactly at the multiples in range, or always when there is none |
| Scheduler.FortiethDay | daemon/Scheduler/Scheduler.cpp:571-585 | the item `/40` for days is accepted and fits every day |
| Cron.SolidusItem | daemon/Scheduler/Scheduler.cpp:571-585 | an item with a solidus allows exactly the multiples, in range, of the number after it, sorted |
| Cron.ListItem | daemon/Scheduler/Scheduler.cpp:587-601 | a list of numbers in range parses to exactly these numbers, shifted and sorted |
| Cron.ListAccepted | daemon/Scheduler/Scheduler.cpp:587-601 | a list of numbers is accepted exactly when all are in range |
| Cron.StarFits | daemon/Scheduler/Scheduler.cpp:566-569 | a star fits every value, whatever the field |
| Cron.NumeralFits | daemon/Scheduler/Scheduler.cpp:603-609 | one number is accepted exactly when it is in range, and then fits itself, shifted, and nothing else |
| Cron.ReadIntNumeral | daemon/Scheduler/Scheduler.cpp:589-591 | a number is read through the blanks and the sign before it, whatever follows, if it is an int |
| Cron.ReadIntOnly | daemon/Scheduler/Scheduler.cpp:589-591 | only a text that begins with blanks, a sign or none, and a digit is a number |
| Cron.StarAfterSolidus | daemon/Scheduler/Scheduler.cpp:571-576 | a star after the solidus is refused |
| Cron.SolidusAccepted | daemon/Scheduler/Scheduler.cpp:571-576 | an item with a solidus is accepted exactly when a positive number can be read after it |
| Cron.ItemSeconds | daemon/Scheduler/Scheduler.cpp:561-613 | whatever item of seconds is accepted, it parses to sorted seconds, or a star, and never to none |
| Cron.SolidusAllows | daemon/Scheduler/Scheduler.cpp:561-585 | the seconds that such an item allows are the multiples of its number |
| Cron.ParseItem | daemon/Scheduler/Scheduler.cpp:561-613 | both parse loops end, and give the item's values or the reason why it is refused |
| Cron.NextSecond | daemon/Scheduler/Scheduler.cpp:622-646 | the delay is the least from 1 to 60 that leads to an allowed second |
| Patterns.ParsePattern | daemon/Scheduler/Scheduler.cpp:494-500 | the seven calls give the values of the seven fields, or the first exception |
| Patterns.PatternFits | daemon/Scheduler/Scheduler.cpp:482-500 | a pattern of stars and numbers: each field fits exactly what its own word says, the month counted from 0 |
| Patterns.PatternAccepted | daemon/Scheduler/Scheduler.cpp:494-500 | such a pattern is accepted exactly when every number is in its field's range |
| Patterns.MissingIsStar | daemon/Scheduler/Scheduler.cpp:484-492 | words left out at the end of a pattern are stars |
| Patterns.NicknamesRefused | daemon/Scheduler/Scheduler.cpp:441-450 | `@yearly`, `@annually` and `@monthly` are refused |
| Patterns.NicknamesFit | daemon/Scheduler/Scheduler.cpp:441-450 | `@minutely`, `@hourly`, `@daily` and `@weekly` are second 0 of the minute, hour and day that they say; `@reboot` is the present time |
| Patterns.NoTime | daemon/Scheduler/Scheduler.cpp:452-470 | no time is exactly the empty text, and a nickname that is none of the eight; only `@reboot` is the present time |
| Patterns.YearSince1900 | daemon/Scheduler/Scheduler.cpp:677-677 | a year in a pattern is met 1900 years later |
| Patterns.RecordOf | daemon/Scheduler/Scheduler.cpp:472-501 | the record that a time makes: at once, with a pattern, or none where the source throws |
| Patterns.WrittenFires | daemon/Scheduler/Scheduler.cpp:670-693 | a record so made fires exactly when the clock shows what its words say |
| Patterns.WordsSpaced | daemon/Scheduler/Scheduler.cpp:482-492 | words put together with spaces are found again |
| TaskQueue.Conservation | daemon/include/TaskQueue.h:73-97 | in every reachable state the tasks pushed are those processed, the one in hand and those queued, in order |
| TaskQueue.NoLostWakeup | daemon/include/TaskQueue.h:113-139 | a worker that sleeps with no notification under way has nothing to do and was not stopped |
| TaskQueue.ExitedStopped | daemon/include/TaskQueue.h:117-141 | the worker exits only after a stop |
| TaskQueue.Progress | daemon/include/TaskQueue.h:113-139 | while the queue runs, each step of the worker brings every pushed task nearer to being processed, no other step delays it, and the worker can go on or a notification is under way |
| TaskQueue.Processed | daemon/include/TaskQueue.h:113-139 | so a pushed task is processed after a bounded number of the worker's steps, if no stop comes first |
| TaskQueue.WaitEnds | daemon/include/TaskQueue.h:119-123 | the wait ends only when the flag is found set under the lock, and clears it |
| TaskQueue.WokenTests | daemon/include/TaskQueue.h:121-121 | a notification, or a spurious waking at any time, ends the sleep, nothing else does, and the flag is tested again |
| TaskQueue.LockKept | daemon/include/TaskQueue.h:121-131 | no client gets the lock from the worker's test until it takes a task or sleeps |
| TaskQueue.LockTaken | daemon/include/TaskQueue.h:120-138 | the worker takes the lock in steps of their own: before its test, after its sleep, and after a task |
| TaskQueue.NoticesCounted | daemon/include/TaskQueue.h:82-96 | in every run there is one notification for each push and stop, sent or under way |
| TaskQueue.StepKeepsInv | daemon/include/TaskQueue.h:113-139 | every step of every thread keeps the queue's invariant, so the flag is set whenever the worker waits and something is queued |
| TaskQueue.StoppedExits | daemon/include/TaskQueue.h:113-139 | once stopped, no task is taken, and the worker can go on until it exits, each of its steps bringing it nearer |
| TaskQueue.StoppedRun | daemon/include/TaskQueue.h:113-139 | a run after a stop takes no task and has at most five steps of the worker |
| TaskQueue.Queue.PushToQueue | daemon/include/TaskQueue.h:73-84 | the task goes to the end, the flag is set, and the new size is returned: the protocol's step |
| TaskQueue.Queue.StopQueue | daemon/include/TaskQueue.h:89-97 | the running flag is cleared and the other set: the protocol's step |
| TaskQueue.Queue.WaitForTask | daemon/include/TaskQueue.h:119-123 | the worker goes on exactly when the flag is set, which it clears: the protocol's step |
| TaskQueue.Queue.TakeTask | daemon/include/TaskQueue.h:125-137 | a turn of the worker's inner loop takes the first task while the queue runs and is not empty: the protocol's step |
| PulseMeters.NoMeterForgotten | applications/pulse_meters/ClientServicePm/ClientServicePm.cpp:146-304 | in every reachable state of both threads, a meter that is not synchronised is pending, or FRC polls are active or about to be |
| PulseMeters.OneFrcTask | applications/pulse_meters/ClientServicePm/ClientServicePm.cpp:146-163 | in every reachable state FRC polls are active exactly when the scheduler has one FRC task, the one the service can name |
| PulseMeters.HandlesExact | applications/pulse_meters/ClientServicePm/ClientServicePm.h:59-75 | in a run that loses no handle, each meter's handle is invalid and it has no live poll, or names the one it has |
| PulseMeters.OrphansStep | applications/pulse_meters/ClientServicePm/ClientServicePm.h:71-75 | only a reset of a handle that changed after it was read makes an orphan poll, exactly one, and no orphan ever goes |
| PulseMeters.RunOrphans | applications/pulse_meters/ClientServicePm/ClientServicePm.h:71-75 | a run has orphans in the end exactly when, at some reset, the handle was neither invalid nor the one read, and the queue's worker was not removing or resetting it |
| PulseMeters.LosesLive | applications/pulse_meters/ClientServicePm/ClientServicePm.h:71-75 | these tests of the service's own variables decide whether the handle about to be reset names a live poll that nothing else removes |
| PulseMeters.NoOrphans | applications/pulse_meters/ClientServicePm/ClientServicePm.h:59-75 | a run in which no handle is assigned between the worker's reading and resetting it has no orphans |
| PulseMeters.OrphanReached | applications/pulse_meters/ClientServicePm/ClientServicePm.h:59-75 | a run of the service that leaves a live poll which no handle names |
| PulseMeterService.FrcRuns | applications/pulse_meters/ClientServicePm/ClientServicePm.cpp:166-206 | from every state, the FRC handler going on alone is a run of the protocol, with the effect stated |
| PulseMeterService.PollRuns | applications/pulse_meters/ClientServicePm/ClientServicePm.cpp:223-304 | the same for the handler of a meter's poll |
| PulseMeterService.QueueRuns | applications/pulse_meters/ClientServicePm/ClientServicePm.cpp:210-221 | the same for the handler of the task queue |
| PulseMeterService.ClientServicePm.constructor | applications/pulse_meters/ClientServicePm/ClientServicePm.cpp:93-111 | the service starts with its meters, none synchronised, and one FRC task, which is the protocol's first state |
| PulseMeterService.ClientServicePm.SetFrc | applications/pulse_meters/ClientServicePm/ClientServicePm.cpp:146-163 | schedules or removes the one FRC task, and does nothing when it is as asked |
| PulseMeterService.ClientServicePm.ProcessFrc | applications/pulse_meters/ClientServicePm/ClientServicePm.cpp:166-206 | queues exactly the meters that answered and are not synchronised, in order; FRC polls go on exactly when some other is not either; the effect is that run's |
| PulseMeterService.ClientServicePm.AnsweredExactly | applications/pulse_meters/ClientServicePm/ClientServicePm.cpp:187-199 | the meters queued are those that answered and are not synchronised, and no others, each once |
| PulseMeterService.ClientServicePm.ProcessTaskQueue | applications/pulse_meters/ClientServicePm/ClientServicePm.cpp:210-221 | the meter taken is synchronised, with one poll of its own; the effect is that run's |
| PulseMeterService.ClientServicePm.ScheduleTaskPeriodic | applications/pulse_meters/ClientServicePm/ClientServicePm.h:59-64 | the meter's poll is replaced by a new one that its handle names |
| PulseMeterService.ClientServicePm.ProcessPoll | applications/pulse_meters/ClientServicePm/ClientServicePm.cpp:223-304 | a reading is sent; a lost meter is given up and FRC polls start; another error gives the meter's poll up; the effect is that run's |
| Confirmations.GetIndexes | applications/protocol_bridge/ProtocolBridgeClientService/ProtocolBridgeClientService.cpp:218-226 | the loops list the set bits in order, each in a byte |
| Confirmations.Confirm | applications/protocol_bridge/ProtocolBridgeClientService/ProtocolBridgeClientService.cpp:348-386 | every write stays in the ten bytes exactly when each index is in the block of the one before or the next; then the messages confirm exactly the indices |
| Confirmations.BitShifts | applications/protocol_bridge/ProtocolBridgeClientService/ProtocolBridgeClientService.cpp:218-226 | a bit is set exactly when the byte shifted right by its number is odd |
| Confirmations.ConfirmMeters | applications/protocol_bridge/ProtocolBridgeClientService/ProtocolBridgeClientService.cpp:340-387 | exactly the set bits of the bitmap are confirmed if and only if these conditions hold and every bit is below 256 |
| Confirmations.LoneNotConfirmed | applications/protocol_bridge/ProtocolBridgeClientService/ProtocolBridgeClientService.cpp:348-386 | a bitmap with bit 160 alone is not confirmed |
| ModeProtocol.InvStep | daemon/DaemonController/DaemonController.cpp:56-116 | every step of commander, worker, clients and the daemon's stop keeps the invariant of the modes |
| ModeProtocol.ProbeNotRefused | daemon/DaemonController/DaemonController.cpp:421-464 | in every reachable state a probe that waits or runs meets a mode other than service, and no probe that ended was refused; until the daemon's stop deletes the handler it meets a live one, and ran if it has ended |
| ModeProtocol.ProbeProgress | daemon/DaemonController/DaemonController.cpp:442-446 | while the probe is waited for, under the mutex, each of the worker's steps brings it nearer and no other delays it; the worker can go on exactly when the queue was not stopped or it has a transaction in hand |
| ModeProtocol.ProbeStuck | daemon/DaemonController/DaemonController.cpp:789-791 | once the queue was stopped with the probe in it and the worker idle, the probe is never finished and the mutex never given back |
| ModeProtocol.StuckReached | daemon/DaemonController/DaemonController.cpp:240-257 | a run that leads there |
| ModeProtocol.HeldInService | daemon/DaemonController/DaemonController.cpp:240-297 | whenever no command holds the mutex, the interface is held exactly in service mode, which has no handler, and the mode is the one that the last command named, or operational without a UDP component |
| ModeProtocol.FatesAsked | daemon/DaemonController/DaemonController.cpp:60-105 | in every run no transaction is forwarded unless forwarding mode was asked for, and none is refused unless service mode was |
| ModeProtocol.StopEnds | daemon/DaemonController/DaemonController.cpp:782-801 | the daemon's stop halts the queue, deletes the handler and clears the pointer to it, in this order and whoever has the mutex |
| ModeProtocol.StopGoesOn | daemon/DaemonController/DaemonController.cpp:782-801 | it waits for nobody before that |
| ModeProtocol.LockedSafe | daemon/DaemonController/DaemonController.cpp:58-116 | a transaction that got the mutex calls no deleted handler in any run in which the daemon's stop does not delete it while the worker has a transaction |
| ModeProtocol.DanglesBy | daemon/DaemonController/DaemonController.cpp:56-116 | exactly which steps make a call one of a deleted handler: deleting the handler that is called, by a change to service mode or by the daemon's stop, and calling what is deleted or cleared |
| ModeProtocol.NothingDangles | daemon/DaemonController/DaemonController.cpp:56-116 | a run that deletes no handler under a transaction has no such call |
| ModeProtocol.DeletesUnlocked | daemon/DaemonController/DaemonController.cpp:58-58 | a transaction met so got no mutex, unless it is the daemon's stop that deletes |
| ModeProtocol.DanglesReached | daemon/DaemonController/DaemonController.cpp:279-287 | a run in which service mode deletes the handler that a client's transaction is calling |
| ModeProtocol.StopDanglesReached | daemon/DaemonController/DaemonController.cpp:782-801 | a run in which the daemon's stop deletes the handler that a transaction with the mutex is calling |
| ModeMachine.DaemonController.ExecuteDpaTransactionFunc | daemon/DaemonController/DaemonController.cpp:56-116 | how the transaction ends, by mode and handler: refused in service mode, without an interface, failed, forwarded in forwarding mode, or executed; a run of the protocol, whether or not the mutex was got |
| ModeMachine.DaemonController.WaitFinish | daemon/DaemonController/DaemonController.cpp:442-446 | waiting ends with the probe run, after all that was queued before it, none of it refused |
| ModeMachine.DaemonController.StartDpa | daemon/DaemonController/DaemonController.cpp:421-464 | a handler is created, and probed, or not; what ran meanwhile was not refused |
| ModeMachine.DaemonController.StopDpa | daemon/DaemonController/DaemonController.cpp:751-758 | the handler is deleted, then its pointer cleared |
| ModeMachine.DaemonController.SetMode | daemon/DaemonController/DaemonController.cpp:240-297 | whatever is queued: the mode asked for, or the old one without a UDP component; the interface held exactly in service mode; no transaction that runs while the probe is waited for is refused |
| ModeMachine.CommandWords | daemon/DaemonController/DaemonController.cpp:822-843 | the three words that are commands, and the modes that they name |
| ModeMachine.DaemonController.DoCommand | daemon/DaemonController/DaemonController.cpp:822-843 | the answer, and the mode, after each command; an unknown one changes nothing |
| ModeMachine.DaemonController.DoCommands | daemon/DaemonController/DaemonController.cpp:240-297 | any sequence of commands, with clients' transactions pushed before each, ends in the mode that the last one named, and is a run of the protocol |
| ModeMachine.DaemonController.AtRest | daemon/DaemonController/DaemonController.cpp:240-297 | between commands the interface is held exactly in service mode |

## Left out

- Strings and the fraction and exponent of numbers are scanners that the grammar takes as parameters: what they return is arbitrary, that they never look back is assumed; so are NaN and infinity, in-situ parsing and the vector instructions.
- Handlers that abort a parse; allocation that fails; depth of recursion. Counts of members and elements are unbounded, not 32 bits wide.
- JsonLanguage.Language: models the flags without trailing commas and without stopping after the first value, with comments or not; `JsonOutcomes.OutcomeExact` is for all flags.
- JsonInteger.ParseInteger: gives a double as the real that its digits denote; conversion to a double and rounding are not modelled.
- JsonInteger.AccumulateDouble: models the limit as the real that the source writes, without rounding the value that is compared with it.
- Streams that read past the end of a UTF-8 text or a pointer read zeros there, as terminated strings do.
- PoolAllocator.Pool.Malloc: says nothing of the pool after a request whose sums wrapped, beyond where the block starts and that it passes its chunk: what its bytes then hold is the caller's. The buffer that a user gives is taken to be aligned, and large enough for a header.
- PoolAllocator.Pool.Realloc: does not model a pointer that is not a live block with the size it was last given, which the source leaves to its callers.
- UdpFrame.DecodeEncode: does not model what lies in memory behind a frame and its terminator, which is a parameter; sockets and the thread that sends are left out.
- Scheduler.Scheduler.FileByHandle: does not model a generator that draws no free handle, for which the source never ends.
- Scheduler.Scheduler.RemoveAllMyTasks: does not remove the handles of tasks that fired their only time, which the source keeps too.
- Scheduler.Scheduler.Drain: does not model the clock advancing or the waiting between turns; the clock and its calendar fields are inputs, related to each other only by the caller.
- The stop flag of the timer thread, starting and stopping threads, and the configuration files of the scheduler.
- Patterns.RecordOf: does not model the client and the task that follow the seven words in a line of text, which are parameters, nor reading them from JSON.
- Reading a handle and testing a flag outside a lock are steps of their own; memory that is torn by a data race is not modelled.
- PulseMeters.NoMeterForgotten: does not model handles that come again after they were given out; that a meter which answered with an error other than a timeout is not polled again is what the source does, and is not counted as forgotten.
- PulseMeterService.ClientServicePm.ProcessPoll: has the effect of the protocol's run when the meter whose poll fired is the first with its address, and that is not 0; of two meters with one address the source finds the first, which the protocol does not model.
- The DPA library: its answers, its addresses and the contents of its messages are inputs.
- Confirmations.ConfirmMeters: models the visible meters; the code for the invisible ones is the same with other commands.
- ModeMachine.DaemonController.SetMode: runs the worker only while a probe is waited for, and the daemon does not stop meanwhile; the interleavings of all threads are in `ModeProtocol`, where one command at a time waits for the mutex and the pointer is read twice, without torn reads.
- ModeProtocol.NothingDangles: models the daemon's stop up to clearing the pointer; that services and messagings are stopped in between, and the worker joined afterwards, restricts no step.
- Messaging, MQTT, logging, command-line tools, JSON serializers, the schema validator and the pretty writer: plumbing, or easy members.
