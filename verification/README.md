# Verification model of the 433 MHz to Wi-Fi gateway firmware

The firmware listens to leak sensors and valve controllers over a 433 MHz radio and to a Wi-Fi module over a serial line.
This project models the parts of it that carry state from one call to the next, and proves what the code keeps over whole
runs. Every operation that updates something in place is a method over arrays, fields or linked nodes, proved equal to a
function on values; what the firmware is meant to do is then proved about those functions.

| file | part of the firmware |
|---|---|
| `JsonText`, `JsonParse`, `JsonRoundTrip`, `JsonBlock`, `JsonMinify` | JSON text: what is printed, what is read, the round trip between the two, and the block a string is read into |
| `JsonItem`, `JsonReader`, `JsonPrinter`, `JsonPrintBuffer`, `PowerOfTwo` | cJSON as it runs: nodes, child lists, parser, both printers |
| `SerialFrames`, `SerialReceiver`, `DataPoints` | the serial line: ring buffer, frame parser, data points, encoders |
| `DeviceTable`, `DeviceMemory`, `Heartbeat` | learned devices, the key-value store behind them, and the heartbeat check |
| `Download` | firmware download |
| `RadioText`, `RadioReceive`, `RadioDamage`, `RadioQueue` | radio frames, what they do to the table, what damage to them goes unnoticed, and the send queue |
| `Words`, `Wrappers` | machine words and the optional result |

## What the proofs found

* `parse_string` counts braces inside strings (wifi/cJSON.c:204-207) and ends a string only where the count is zero. A tree
  survives printing and parsing exactly when every string and every name has as many opening as closing braces
  (`JsonRoundTrip.RoundTrip`).
* The block for a string is measured up to the first plain quote, without counting braces (wifi/cJSON.c:199-202). A string
  that ends there fits its block, whatever escapes it holds (`JsonBlock.SecondPassFits`). A printed string with unbalanced
  braces is read on behind its closing quote, and is written past the end of its block exactly when what is read on is
  longer than the four characters of room that each of its six-character escapes leaves (`JsonBlock.PrintedBlock`); the
  smallest is a single brace (`JsonBlock.OverrunByBrace`).
* The pointer `print_object` returns to the buffered printer's caller is wrong exactly for formatted objects with members
  whose text does not start at the offset that is their depth, because the variable that held the position is used as a
  loop counter in between (`JsonPrintBuffer.ReturnedRight`; `JsonPrintBuffer.ReturnedOff` gives inputs). No function in the
  file uses the pointer of a nested value, and the outermost value has depth and offset 0: the text in the buffer and the
  pointer to it are right (`JsonPrintBuffer.PrintBuffered`).
* The receive ring loses everything that waits when a byte arrives with the write pointer at the end of the buffer and the
  read pointer at index 1 (`SerialReceiver.LoseAll` gets there from power-up). With at most 4101 bytes waiting this cannot
  happen (`SerialReceiver.Receiver.UartReceiveInput`).
* The frame length is a 16-bit sum. Length fields from 0xFFFA wrap to very short frames, which the model reproduces; for
  0xFFF9 the sum is zero and the code reads outside the frame. The predicate `SerialFrames.Sane` says of a stream that the
  parser meets no such header in it. All calls of a run that catches up with its stream are defined if and only if the
  stream is sane (`SerialReceiver.DrainedRun`), seven bytes are enough for a call that is not
  (`SerialReceiver.UndefinedCall`), and a stream that does not contain the header is sane (`SerialReceiver.StreamDefined`).
* `Del_MainBind` clears the upload key of the main only. A bound device removed with its main finds its old flag in the
  store when it is learned again (`DeviceTable.StaleFlag`); `DeviceTable.UploadsRun` says exactly when flags stay in step.
* `Del_MainBind` takes one off the number of mains for every entry it removes, and a main that arrives through the guard
  while there are three is stored but not counted. Removing a main keeps the number right if and only if nothing else is
  bound to it or no other main is stored (`DeviceTable.DeleteBoundCount`); `DeviceTable.HandleCount` says the same of all
  other events. `DeviceTable.UncountedAfterDrop` and `DeviceTable.UncountedFourth` reach a wrong number from an empty table.
* `wifi_ota_begin` erases the partition and keeps the write position: a second start during a download destroys what was
  stored unless it looked like what the start leaves there (`Download.StartAgain`, `Download.BeginningLost`). An empty chunk
  at any offset resets the processor, complete or not (`Download.EmptyChunkEnds`, `Download.CompleteAtReset`).
* The heartbeat's counters belong to slots and are not cleared when a slot gets another device. A main that is learned into
  the slot of a deleted one can be marked offline after seven unanswered probes of its own (`Heartbeat.InheritedFailures`);
  the 42 probes were all its own exactly when it was in the slot in each of the last six passes (`Heartbeat.OfflineOfOne`).
* The receiver of normal radio frames looks at the end of the line and not at the two check digits: any two characters in
  their place give the same message (`RadioReceive.AnyCheckDigits`), and a changed digit gives another message
  (`RadioDamage.ChangedCommand`). `RadioDamage.AlteredFrame` says exactly which single damaged characters it notices.
* Once thirty entries have been put into the radio queue it refuses everything until it has sent them all and been set
  back, however few are still pending (`RadioQueue.ClosedUntilDrained`).

## Model

| member | source | states |
|---|---|---|
| JsonRoundTrip.RoundTrip | wifi/cJSON.c:361-662 | for every printable tree, both formats, any depth and any following text that cannot extend a number: reading the print gives the tree and stops at its end if and only if all strings and names balance their braces |
| JsonRoundTrip.ArrayRoundTrip | wifi/cJSON.c:410-515 | the same for arrays |
| JsonRoundTrip.ItemsRoundTrip | wifi/cJSON.c:410-435 | the elements come back in order if and only if all balance, whatever follows that goes on neither with a comma nor with more of a number; the reader stands at its first character that is no white space |
| JsonRoundTrip.ObjectRoundTrip | wifi/cJSON.c:518-662 | the same for objects |
| JsonRoundTrip.MemberRoundTrip | wifi/cJSON.c:518-551 | one name and value, with the white space and the colon of either format |
| JsonRoundTrip.MembersRoundTrip | wifi/cJSON.c:518-551 | the members come back in order if and only if names and values balance, whatever follows that does not go on with a comma |
| JsonRoundTrip.NumberRoundTrip | wifi/cJSON.c:97-116 | every integer printed in decimal is read back, whatever follows that is not a digit, point or exponent |
| JsonRoundTrip.StringRoundTrip | wifi/cJSON.c:193-313 | a printed string without NUL is read back when its braces balance; otherwise more of the text than the string is read, and its block need not hold it (see JsonBlock.PrintedBlock) |
| JsonRoundTrip.BodyRoundTrip | wifi/cJSON.c:193-253 | reading the escaped characters yields the characters and carries the brace count over to the text behind them |
| JsonRoundTrip.UnescapeEscape | wifi/cJSON.c:208-247 | every escape the printer writes is undone by the parser and used up exactly |
| JsonRoundTrip.UnclosedString | wifi/cJSON.c:248-253 | a string whose closing quote is missing at the end of the text is read, balanced or not |
| JsonRoundTrip.UnclosedArray | wifi/cJSON.c:425-435 | printed elements that neither go on with a comma nor end with a bracket are refused |
| JsonRoundTrip.UnclosedObject | wifi/cJSON.c:538-551 | the same for members and the closing brace |
| JsonRoundTrip.NoMember | wifi/cJSON.c:526-531 | a member without a quoted name or without a colon is refused |
| JsonRoundTrip.NoValue | wifi/cJSON.c:361-373 | a text that starts neither with a word nor with a quote, bracket, brace, minus or digit is refused |
| JsonRoundTrip.NestingCounts | wifi/cJSON.c:204-207 | the nesting of a string is the number of its opening braces minus that of its closing ones |
| JsonText.IntTextValue | wifi/cJSON.c:162 | a printed number is 0, or a sign exactly when it is negative and decimal digits, the first not a zero, whose value is its amount |
| JsonText.EscapedExactly | wifi/cJSON.c:289-306 | which characters are printed as they are, which seven by a letter, and the four lower-case digits of the others |
| JsonText.EscapeAllAppend | wifi/cJSON.c:289-306 | characters are escaped one by one, whatever stands around them |
| JsonPrinter.ObjectLayout | wifi/cJSON.c:554-662 | in formatted text each member has its own line, indented by its depth, with a tab behind the colon; flat text has no white space; both forms of the empty object |
| JsonPrinter.ArrayLayout | wifi/cJSON.c:438-515 | elements are separated by a comma, with a blank behind it in formatted text |
| JsonParse.NumberGrammar | wifi/cJSON.c:97-116 | every number of the JSON grammar, with sign, fraction and exponent or without, is read as its exact decimal value, up to its end |
| JsonParse.SkipsSpace | wifi/cJSON.c:324 | exactly the characters up to the blank are skipped |
| JsonParse.UnicodeEscape | wifi/cJSON.c:219-233 | an escaped code point and an escaped surrogate pair give the encoding of their code point; halves on their own and zero are dropped |
| JsonParse.Utf8Encodes | wifi/cJSON.c:234-242 | the bytes stored for a code point are its UTF-8 encoding, of the shortest length |
| JsonParse.FourDigits | wifi/cJSON.c:178-190 | four hexadecimal digits in either case stand for their number in base 16, and another character makes it 0 |
| JsonParse.PlainEscape | wifi/cJSON.c:212-245 | five letters behind a backslash stand for control characters, every other character but u for itself |
| JsonBlock.SecondPassFits | wifi/cJSON.c:199-247 | for every text, whatever escapes it holds: when the second pass ends at the first plain quote, what it writes fits the block the first pass asked for |
| JsonBlock.MeasuredPrint | wifi/cJSON.c:199 | over a printed string the first pass stops at the closing quote and counts every character once, and four more for each six-character escape |
| JsonBlock.PrintedBlock | wifi/cJSON.c:193-253 | every printed string, whatever follows it: it fits its block if and only if what the second pass reads on from the closing quote is no longer than four characters for each six-character escape; so it fits when the braces balance, and without such escapes only then |
| JsonBlock.OverrunByBrace | wifi/cJSON.c:199-207 | the print of a single brace asks for two bytes, and three are written |
| JsonMinify.MinifyText | wifi/cJSON.c:739-754 | minifying the print of any tree in either format gives its unformatted print, and goes on with what follows |
| JsonMinify.MinifiedRoundTrip | wifi/cJSON.c:739-754 | formatting, minifying and parsing gives the tree back if and only if its braces balance |
| JsonMinify.LiteralOfEscaped | wifi/cJSON.c:750 | a printed string, escapes included, passes the minifier unchanged |
| JsonMinify.MinifyInPlace | wifi/cJSON.c:739-754 | the loop that overwrites the text while it reads it leaves the minified text with a terminator; the write position never passes the read position |
| JsonMinify.CopyLiteral | wifi/cJSON.c:750 | a string literal is moved to the front unchanged although source and target share the array |
| JsonMinify.LineComment | wifi/cJSON.c:748 | a comment is removed up to the end of its line |
| JsonMinify.BlockComment | wifi/cJSON.c:749 | a block comment is removed up to the first star with a slash behind it, the star that opens it included |
| JsonMinify.OneCharacter | wifi/cJSON.c:744-751 | which single characters are removed and which are kept |
| JsonItem.ListShape | wifi/cJSON.c:665-693 | the child list of a valid node has distinct nodes, `next` and `prev` are inverse, and following `next` visits the children in order and ends |
| JsonItem.AddItemToArray | wifi/cJSON.c:675 | appends to the child sequence and to the tree the node stands for |
| JsonItem.InsertItemInArray | wifi/cJSON.c:688-689 | inserts at a position, appending when it is past the end |
| JsonItem.DetachItemFromArray | wifi/cJSON.c:681-682 | removes the child at a position, which comes back unlinked, intact and disjoint from the parent; past the end nothing changes |
| JsonItem.ReplaceItemInArray | wifi/cJSON.c:690-692 | puts the new node in the place of the old one, which ends up unlinked; past the end nothing changes |
| JsonItem.GetArrayItem | wifi/cJSON.c:666 | the child at a position, the first for negative positions, null past the end |
| JsonItem.GetArraySize | wifi/cJSON.c:665 | the number of children |
| JsonItem.Duplicate | wifi/cJSON.c:712-737 | a copy made of fresh nodes only that stands for the same tree; without recursion only the node itself |
| JsonReader.ReadNumber | wifi/cJSON.c:97-116 | the loops of parse_number compute what the grammar function gives, as an exact decimal |
| JsonReader.MeasureString | wifi/cJSON.c:199 | the first pass counts what the measuring function gives |
| JsonReader.ReadString | wifi/cJSON.c:193-253 | the character loop with its brace counter reads what the grammar function gives, into a block of the measured size that holds it exactly when JsonBlock says so |
| JsonReader.ReadValue | wifi/cJSON.c:361-373 | builds fresh, valid nodes for exactly the tree the grammar function gives, or null exactly when it fails |
| JsonReader.ReadArray | wifi/cJSON.c:410-435 | the same for arrays, elements linked in order |
| JsonReader.ReadObject | wifi/cJSON.c:518-551 | the same for objects, names moved into the nodes |
| JsonReader.ParseWithOpts | wifi/cJSON.c:327-343 | the entry point: leading space skipped, the end of the text required on request |
| JsonPrinter.PrintValue | wifi/cJSON.c:376-407 | the unbuffered printer allocates a block that holds the text of the tree |
| JsonPrinter.MeasureEscaped | wifi/cJSON.c:282 | the measuring pass counts exactly the characters the writing pass stores |
| JsonPrinter.PrintStringPtr | wifi/cJSON.c:256-311 | three passes over the string fill the block of measured size exactly with the quoted, escaped text |
| JsonPrinter.PrintArray | wifi/cJSON.c:438-515 | the entries are printed, measured and copied within the measured block |
| JsonPrinter.ComposeArray | wifi/cJSON.c:502-513 | the copying pass never exceeds the measured length |
| JsonPrinter.PrintObject | wifi/cJSON.c:554-662 | the same for objects, names and tabs included |
| JsonPrinter.ComposeObject | wifi/cJSON.c:644-660 | the copying pass of objects never exceeds the measured length |
| JsonPrintBuffer.PrintBuffer.Ensure | wifi/cJSON.c:122-137 | growing makes the room asked for and keeps the text written so far |
| JsonPrintBuffer.PrintBuffer.Update | wifi/cJSON.c:139-145 | the offset moves behind the string that was written |
| JsonPrintBuffer.BufferValue | wifi/cJSON.c:376-407 | behind whatever the buffer holds, the text of the tree is written; the pointer returned is the one the code computes |
| JsonPrintBuffer.ReturnedRight | wifi/cJSON.c:577-612 | the pointer returned is the start of the text if and only if the value is not a formatted object with members or its depth is its offset |
| JsonPrintBuffer.ReturnedOff | wifi/cJSON.c:577-612 | for every formatted object with members behind an empty array the pointer is not at its text |
| JsonPrintBuffer.PrintBuffered | wifi/cJSON.c:349-357 | whatever the first size, the buffer holds the very text the unbuffered printer gives |
| PowerOfTwo.Pow2GtIsLeastPower | wifi/cJSON.c:118 | smearing the bits gives a power of two that is at least the argument and less than twice it |
| SerialFrames.ScanAppend | wifi/mcu_api.c:490-534 | scanning a stream in two pieces, keeping the leftover between them, finds the same frames and leaves the same bytes |
| SerialFrames.SaneAppend | wifi/mcu_api.c:507-508 | a stream avoids the zero-length header exactly when its pieces do, the second behind the leftover of the first |
| SerialFrames.NoEmptyLengthSane | wifi/mcu_api.c:507-508 | a stream in which no marker is followed by the length field 0xFFF9 never makes the parser meet a zero-length frame |
| SerialFrames.LeftoverFits | wifi/mcu_api.c:483-534 | after every scan there is room for at least one more byte |
| SerialFrames.ScanStream | wifi/mcu_api.c:490-528 | frames built by the writer, with junk without a marker in front of each, are found once each, in order |
| SerialFrames.AcceptFrame | wifi/system.c:137-153 | a frame of at most 4096 payload bytes is accepted at its full length, whatever follows |
| SerialFrames.PayloadOfFrame | wifi/system.c:137-153 | type, version and payload stand in the frame where the handler looks for them |
| SerialFrames.ChecksumDetects | wifi/system.c:100-110 | changing any single byte of a frame makes its checksum test fail |
| SerialFrames.DamagedFrame | wifi/mcu_api.c:515-522 | a frame damaged outside marker and length is skipped, and the next frame is found if no marker shows up in the rest |
| SerialReceiver.ChunkingDoesNotMatter | wifi/mcu_api.c:476-534 | in every run of received bytes and service calls the frames handled and those still inside are the frames of one scan over the whole stream; over a sane stream all calls are defined |
| SerialReceiver.DrainedRun | wifi/mcu_api.c:476-534 | when the stream pauses and the service has caught up, exactly the frames of the whole stream have been handled, and all calls were defined if and only if the stream is sane |
| SerialReceiver.FramesArrive | wifi/mcu_api.c:476-534 | frames of the writer arrive through any chunking and any junk without a marker, once each, in order, by defined calls only and with nothing left over |
| SerialReceiver.ServicesDrain | wifi/mcu_api.c:483-489 | without new bytes, at most one call per waiting byte and one more empties the ring |
| SerialReceiver.ScanKept | wifi/mcu_api.c:529-533 | the bytes kept for later hold no complete frame |
| SerialReceiver.RunSane | wifi/mcu_api.c:476-534 | from any state and for any run: every service call meets what WifiUartService asks for, and what is left is sane, if and only if the bytes left, waiting and to come are sane |
| SerialReceiver.UndefinedCall | wifi/mcu_api.c:507-516 | a stream of seven bytes over which a service call is not defined |
| SerialReceiver.StreamDefined | wifi/mcu_api.c:476-534 | a check on the bytes alone that is enough for defined calls, whether or not the service has caught up: no header with the length field 0xFFF9 in the stream |
| SerialFrames.GetCheckSum | wifi/system.c:100-110 | the 8-bit accumulator is the byte sum modulo 256 |
| SerialFrames.CheckSumLaws | wifi/system.c:100-110 | no bytes have the checksum 0, and one more byte adds itself modulo 256 |
| SerialFrames.CheckSumAppend | wifi/system.c:100-110 | checksums of pieces add up modulo 256 |
| SerialFrames.KnownFrames | wifi/mcu_api.c:490-524 | the heartbeat frame of the Wi-Fi module by its bytes is accepted, and the bytes of an acknowledgement |
| SerialFrames.LengthLimit | wifi/mcu_api.c:490-524 | behind a marker: lengths above 4096 are skipped, incomplete frames waited for, complete ones accepted by their sum |
| SerialReceiver.MyMemcpy | wifi/mcu_api.c:104-125 | the block arrives intact for every overlap and nothing else changes |
| SerialReceiver.Receiver.UartReceiveInput | wifi/mcu_api.c:450-468 | which of the three outcomes a byte has, in all states: queued, refused, or all waiting bytes lost |
| SerialReceiver.LoseAll | wifi/mcu_api.c:450-468 | from power-up, 4103 bytes in, one out and one more in: nothing waits any more |
| SerialReceiver.Receiver.GetQueueTotalData | wifi/system.c:910-916 | the empty test is right although both pointers may stand one past the end |
| SerialReceiver.Receiver.QueueReadByte | wifi/system.c:923-940 | hands out the oldest waiting byte and removes it |
| SerialReceiver.Receiver.Fill | wifi/mcu_api.c:483-485 | moves the longest prefix of the waiting bytes that fits, until the buffer is full or nothing waits |
| SerialReceiver.Receiver.Frames | wifi/mcu_api.c:490-528 | the offset loop ends, never passes the data, and hands on the frames of a scan |
| SerialReceiver.Receiver.WifiUartService | wifi/mcu_api.c:476-534 | one whole call is one scan of leftover and taken bytes, the new leftover moved to the start of the buffer |
| DataPoints.IntByteRoundTrip | wifi/mcu_api.c:172-198 | four bytes and back is the identity on 32-bit numbers, most significant byte first |
| DataPoints.ByteIntRoundTrip | wifi/mcu_api.c:172-198 | a number and back is the identity on four bytes |
| DataPoints.FaultRoundTrip | wifi/mcu_api.c:374-406 | a fault mask in one, two or four bytes has the value it was given |
| DataPoints.WalkRecords | wifi/system.c:453-473 | for every list of records the walk visits each once, in order, and ends exactly at the end of the payload |
| DataPoints.GetDownloadDpidIndex | wifi/system.c:244-256 | the index of the first entry for a data point, or the length of the table |
| DataPoints.KindOfFirst | wifi/system.c:244-256 | the type of a data point is that of its first entry, and it has none exactly without an entry |
| DataPoints.DataPointHandle | wifi/system.c:265-290 | a value reaches the handler exactly when its type is the table's type for the data point |
| DataPoints.DataIssued | wifi/system.c:453-473 | the command loop makes the visits of the walk and stops at the end of the payload |
| DataPoints.NumbersReadBack | wifi/mcu_api.c:277-406 | bodies of the value and fault encoders walk back to the data point, type and number given |
| DataPoints.Sender.WriteFrame | wifi/system.c:137-153 | header and checksum put around the prepared payload go out as one frame |
| DataPoints.Sender.ValueUpdate | wifi/mcu_api.c:277-300 | sends one report frame with one value record, or nothing while reporting is stopped |
| DataPoints.Sender.FaultUpdate | wifi/mcu_api.c:374-406 | sends one report frame with a fault record of the shortest width |
| DataPoints.Sender.ByteUpdate | wifi/mcu_api.c:242-266 | booleans, made 0 or 1, and enumerations |
| DataPoints.Sender.BytesUpdate | wifi/mcu_api.c:210-230 | raw data and strings |
| DataPoints.ReportRoundTrip | wifi/mcu_api.c:210-406 | a report that was sent is found by the frame parser and its payload walks back to the one record |
| DataPoints.Sender.ReportArrives | wifi/mcu_api.c:210-406 | while reporting is on, the report is a frame that the reader finds with its sub-device and record; while it is stopped nothing goes out |
| DataPoints.ValueFrame | wifi/mcu_api.c:277-300 | one value report byte for byte |
| DeviceTable.CacheAgreement | applications/flashwork.c:412-428 | after any run of fresh additions, deletions of both kinds, flag updates and restarts, reloading rebuilds number, main count, identifiers and the bind and heart of every occupied slot |
| DeviceTable.StepSound | applications/flashwork.c:110-519 | every operation keeps identifiers unique, slots above the highest used one empty, and the store in step |
| DeviceTable.RunSound | applications/flashwork.c:110-519 | the same for whole runs, restarts included |
| DeviceTable.DropKeeps | applications/flashwork.c:343-361 | while slots are dropped one by one only the keys of the dropped main may be out of step |
| DeviceTable.Reload | applications/flashwork.c:412-428 | one reload rebuilds the devices, and all upload flags loaded for occupied slots are right if and only if memory and store agreed on them |
| DeviceTable.UploadsRun | applications/flashwork.c:224-272 | upload flags agree all along a run if and only if no addition finds a key that differs from the flag in its slot |
| DeviceTable.UploadAgreement | applications/flashwork.c:484-519 | in runs without Del_MainBind, with flags set for nonzero identifiers only, reloaded flags are right |
| DeviceTable.StaleFlag | applications/flashwork.c:336-363 | a run with Del_MainBind after which a reloaded flag is wrong |
| DeviceTable.AddTakesLowest | applications/flashwork.c:110-127 | an addition takes the lowest free slot and changes nothing when there is none |
| DeviceTable.FullTable | applications/flashwork.c:110-127 | no slot is free exactly when 49 devices are stored |
| DeviceTable.NumGrows | applications/flashwork.c:110-127 | the highest slot used never goes down and stays below 50 |
| DeviceTable.Lookup | applications/flashwork.c:273-289 | the downward scan finds exactly what the map of devices holds |
| DeviceTable.StepRefines | applications/flashwork.c:224-519 | every operation acts on the map of devices as insertion, removal or update of one field |
| DeviceTable.RunRefines | applications/flashwork.c:224-519 | whole runs of operations are runs of the map, over restarts too when no addition picks up a stale flag |
| DeviceTable.DevicesDeleteBound | applications/flashwork.c:336-363 | Del_MainBind removes exactly the device and those bound to it |
| DeviceTable.HandleSound | wifi/wifi-api.c:182-220 | learning, arrivals through the guard and removals keep everything the additions rely on |
| DeviceTable.ArriveDevices | wifi/wifi-api.c:182-220 | an arrival stores a new main unbound and a new slave or door with its sender, alive and not uploaded; of a device that is there at most the upload flag is cleared; other identifiers and full tables change nothing |
| DeviceTable.LearnDevices | radio/Radio_Decoder.c:37-61 | exactly when a main is learned, and that it is then stored anew, unbound, alive and not uploaded, all else unchanged |
| DeviceTable.RemoveDevices | applications/flashwork.c:307-335 | a removal takes exactly the device out |
| DeviceTable.EventsFromEmpty | wifi/wifi-api.c:182-220 | in every run of events free slots have clear flags, and slots hold unbound mains and bound slaves and doors when slaves and doors arrive with a device |
| DeviceTable.HandleCount | radio/Radio_Decoder.c:37-61 | an event keeps the main count right if and only if it is not the arrival of a new main while there are three and a free slot |
| DeviceTable.MainsFromEmpty | radio/Radio_Decoder.c:37-61 | from an empty table, in every run of learning, arrivals of slaves and doors, and removals, the main count is the number of mains and at most three |
| DeviceTable.DeleteBoundCount | applications/flashwork.c:336-363 | with a right count and unbound mains, Del_MainBind keeps the count right if and only if the identifier is not a main's, or nothing is bound to it, or no other main is stored; for the identifier 0, which stands in free slots, if and only if there are no mains |
| DeviceTable.DropCounted | applications/flashwork.c:336-363 | in every table with a right count: it stays right if and only if as many mains are removed as the count goes down |
| DeviceTable.HandleUnbound | applications/flashwork.c:224-240 | every event leaves mains bound to nothing |
| DeviceTable.UnboundFromEmpty | wifi/wifi-api.c:182-220 | from an empty table mains are bound to nothing in every run of events |
| DeviceTable.DropUnbound | applications/flashwork.c:336-363 | Del_MainBind leaves mains bound to nothing |
| DeviceTable.UncountedAfterDrop | applications/flashwork.c:336-363 | two mains are learned and a slave is bound to the first: with the first deleted, the second is stored and the count is 0 |
| DeviceTable.UncountedFourth | wifi/wifi-api.c:182-220 | three mains are learned and a fourth arrives: four are stored and the count is 3 |
| DeviceMemory.Memory.GetLearnNumsValid | applications/flashwork.c:110-127 | the upward scan and the update of the highest slot |
| DeviceMemory.Memory.GetBindID | applications/flashwork.c:273-289 | the bind of the device in the map, 0 without it |
| DeviceMemory.Memory.GetHeart | applications/flashwork.c:429-445 | the heart flag of the device in the map |
| DeviceMemory.Memory.GetUploadFlag | applications/flashwork.c:484-500 | the upload flag of the device in the map |
| DeviceMemory.Memory.BoundAdd | applications/flashwork.c:241-272 | arrays and store become those of the addition |
| DeviceMemory.Memory.MainAdd | applications/flashwork.c:224-240 | the same for mains, which are counted up to three |
| DeviceMemory.Memory.DelDevice | applications/flashwork.c:307-335 | arrays and store become those of the deletion |
| DeviceMemory.Memory.DelMainBind | applications/flashwork.c:336-363 | the loop over all slots, with the keys the code writes |
| DeviceMemory.Memory.SetHeartFlag | applications/flashwork.c:446-483 | the receive flag and, on a change only, heart flag and key |
| DeviceMemory.Memory.SetUploadFlag | applications/flashwork.c:501-519 | flag and key of the device found |
| DeviceMemory.Memory.LoadDevice2Memory | applications/flashwork.c:412-428 | clears the arrays and fills them from the store |
| DeviceMemory.Memory.Add2Flash | wifi/wifi-api.c:182-220 | the guard: a device is added only when it is not found |
| DeviceMemory.Memory.Learn | radio/Radio_Decoder.c:37-61 | learning: refused with three mains, else the main is deleted and added anew |
| Heartbeat.OfflineExactly | applications/heart.c:31-79 | over all runs of passes, for any answers and any table in between, a slot goes offline exactly after 42 unanswered probes in a row since its last answer or the last time offline, whichever devices were in it |
| Heartbeat.OfflineAfterPatience | applications/heart.c:50-71 | from start-up, the 42 probes of the slot before it goes offline all went unanswered |
| Heartbeat.OfflineOfOne | applications/heart.c:50-71 | those 42 probes were all of the device that goes offline if and only if it was in the slot in each of the last six passes over the slot |
| Heartbeat.InheritedFailures | applications/heart.c:50-71 | a main learned into the slot of a deleted one that had failed five passes goes offline after seven unanswered probes of its own |
| Heartbeat.SlotPassLog | applications/heart.c:36-73 | one pass over a main: one to seven probes up to the first answer, which clears the counters; a failed pass is counted, and the sixth takes the slot offline |
| Heartbeat.PassSlot | applications/heart.c:31-79 | one pass over the table is that pass for every main, leaves the heart flag as the last event says, and leaves all other slots alone |
| Heartbeat.PassLeaves | applications/heart.c:31-79 | a pass leaves counters, log and heart flag of free and of bound slots, and the other columns of the table, as they were |
| Heartbeat.MainsProbed | applications/heart.c:34 | after any run of events whose slaves and doors arrive with a device, a pass probes a slot if and only if it holds a main |
| Heartbeat.PassesSlot | applications/heart.c:31-79 | over whole runs the slots do not influence each other |
| Heartbeat.SlotBeatGood | applications/heart.c:42-71 | the counters measure the unanswered probes so far |
| Heartbeat.TrailMeans | applications/heart.c:50-71 | what a trail of unanswered probes is |
| Heartbeat.Monitor.Probe | applications/heart.c:36-73 | one round of the loop, the retry increment of the log statement included |
| Heartbeat.Monitor.CheckAll | applications/heart.c:31-79 | a pass ends, because the slot grows or else the retry counter does, and is the pass of the specification |
| Download.DownloadSafety | ota/wifi_ota.c:54-68 | chunks in any order, repeated or lost, and any flash faults: the partition holds the image up to the write position, which never goes back |
| Download.StartPrefix | ota/wifi_ota.c:26-52 | a start before anything is stored establishes what DownloadSafety keeps, whatever the erase leaves |
| Download.DownloadCompletes | wifi/system.c:593-658 | the first download after start-up, erased and sent in order with repeats and without faults, has the whole image stored when the processor is reset |
| Download.StartAgain | ota/wifi_ota.c:26-52 | a start of any size during a download, failed or not, keeps the invariant if and only if nothing is erased or the stored beginning looks like what the start leaves |
| Download.BeginningLost | ota/wifi_ota.c:26-52 | one byte is stored and a second start without faults wipes it, the write position staying behind it |
| Download.EmptyChunkEnds | wifi/protocol.c:1077-1089 | over every run from start-up, the processor has been reset if and only if an empty chunk, at any offset, came while the latest start or oversized chunk was a start |
| Download.SentFrames | wifi/system.c:593-658 | over every run from start-up exactly these frames are sent, in order: the package size for each start before the reset, and an empty acknowledgement for each chunk of 1 to 1024 bytes in an open session, stored or not |
| Download.ChunkStores | ota/wifi_ota.c:54-68 | over every run: when a chunk is stored and where, and that otherwise partition and position do not change |
| Download.StartErases | ota/wifi_ota.c:26-52 | which bytes a start erases, and that it leaves the write position |
| Download.CompleteAtReset | wifi/system.c:618-658 | after chunks in any order, repeated or lost, ended by an empty chunk: the image is stored if and only if the chunks that came in their turn led to its end or the rest of it looks erased |
| Download.FillingStep | ota/wifi_ota.c:54-68 | without faults a chunk is written to erased bytes only, and the rest of the space for the image stays erased |
| Download.Receiver.OtaReceive | ota/wifi_ota.c:54-68 | only the chunk at the write position is stored; a failed write does not move the position |
| Download.Receiver.StartCmd | wifi/system.c:593-616 | the start command |
| Download.Receiver.TransCmd | wifi/system.c:618-658 | the transfer command with its three cases, and that reporting is on again afterwards |
| RadioReceive.RadioRoundTrip | radio/Radio_Decoder.c:62-68 | a normal frame whose numbers fit is received with target, sender, counter plus one modulo 256, command and data |
| RadioReceive.AnyCheckDigits | radio/Radio_Decoder.c:62-68 | any two characters in place of the check digits give the same message |
| RadioDamage.AlteredFrame | radio/Radio_Decoder.c:62-68 | a fitting frame with one character of its body changed is still received if and only if it is the closing brace, or a digit stands where a digit stood, or a blank or sign where the first of several, or a comma that cuts an identifier or the counter in two |
| RadioDamage.ChangedCommand | radio/Radio_Decoder.c:62-68 | with one digit changed, the message of another command is received |
| RadioDamage.ScanJoined | radio/Radio_Decoder.c:67 | numbers are scanned from parts between commas if and only if there are enough parts, all before the last one wanted are numbers to their end, and that one starts with a number |
| RadioText.NormalLength | radio/Radio_Encoder.c:50-60 | the body has at least 28 characters, and exactly 28 if and only if the numbers fit |
| RadioText.CheckDigits | radio/Radio_Encoder.c:57-62 | the two digits are the sum of the body, and one changed character no longer matches them |
| RadioText.BracedRoundTrip | radio/Radio_Decoder.c:67 | any list of numbers in any widths, signs included, is scanned back |
| RadioText.GatewayLength | radio/Radio_Encoder.c:91-98 | the gateway frame has at least 41 characters, and exactly 41 if and only if identifiers have eight digits and the value is below 100 |
| RadioText.GatewayRoundTrip | radio/Radio_Encoder.c:91-98 | when it fits, the frame is closed by its letter and its numbers can be scanned |
| RadioText.RadioSend | radio/Radio_Encoder.c:50-68 | the buffer with text, check digits and end of line |
| RadioReceive.NormalSolve | radio/Radio_Decoder.c:62-95 | a received frame changes the table as its command says, scanned identifiers being taken modulo 2^32 |
| RadioReceive.SolveDevices | radio/Radio_Decoder.c:62-95 | what a message to this gateway does to the map of devices: learning exactly for command 3, and a known sender is alive |
| RadioReceive.Ignored | radio/Radio_Decoder.c:62-85 | frames with another end, for another gateway or from the factory change nothing |
| RadioReceive.LearnFrame | radio/Radio_Decoder.c:62-95 | from the air to the table: a main's confirmation puts it into the table, unbound and alive, whenever it is there already or there is room |
| RadioReceive.LearnRefused | radio/Radio_Decoder.c:39-46 | otherwise nothing changes |
| RadioQueue.FirstInFirstOut | radio/Radio_Encoder.c:69-152 | in every interleaving, what was sent followed by what is pending is what was let in, in order |
| RadioQueue.Drains | radio/Radio_Encoder.c:120-152 | without new entries all pending ones are sent, and one more round starts afresh |
| RadioQueue.ClosedUntilDrained | radio/Radio_Encoder.c:69-81 | after thirty entries nothing is let in before all have been sent and the queue has been set back |
| RadioQueue.FirstThirty | radio/Radio_Encoder.c:69-81 | from the start the first thirty entries are let in and no more |
| RadioQueue.FrameNumbers | radio/Radio_Encoder.c:50-98 | what a fitting entry puts on the air scans back to its fields, in order, with its length and its end |
| RadioQueue.SendQueue.GatewayDataEnqueue | radio/Radio_Encoder.c:69-90 | appends to the pending entries, no unsent slot being overwritten, or refuses at thirty |
| RadioQueue.SendQueue.RadioEnqueue | radio/Radio_Encoder.c:99-119 | the same for normal entries |
| RadioQueue.SendQueue.RadioDequeue | radio/Radio_Encoder.c:120-152 | sends the oldest pending entry as its frame, or sets the counters back |

## Left out

- Floating point: the parser keeps a number as an exact decimal instead of a `double`, and only integers of 32 bits are printed.
- Allocation failure: every allocation succeeds, in cJSON and elsewhere.
- Sizes: lengths, depths and buffer sizes are unbounded, so the overflow of C integers in very long texts is not modelled.
- Text after a terminator: positions past the end of a text read as NUL.
- JsonReader.ReadString: the characters are collected in a sequence, so that a write past the block, where JsonBlock says there is one, has no effect on other memory.
- JsonReader.ReadArray: a child is linked behind its parent's list after it has been read, where the C code links it first; on failure the partial tree is dropped.
- JsonMinify.MinifyInPlace: texts that end inside a string literal or block comment are excluded, because the C code reads past its terminator there.
- cJSON references, constant keys, case-insensitive lookup by name, deletion, and the array constructors.
- SerialReceiver.Receiver.WifiUartService: requires that the scan meets no header with the length field 0xFFF9; there the code has no defined result.
- DataPoints.DataIssued: requires records that end with the payload, data points the table knows, and a sub-device identifier of at most 50 bytes, because the code reads or writes past its data otherwise.
- The other commands of `data_handle`, and the callbacks in wifi/protocol.c that only format their arguments.
- Preemption inside one call, such as between wrapping the ring's write pointer and storing the byte.
- Key formats of the store: keys are values, so that printing and reading the decimal key texts is not modelled; writes to the store succeed.
- Network messages sent along with table changes, the list of remote devices (its answer is a parameter) and its synchronisation, signal strength, motor state and `GetDoorID`.
- Heartbeat.Monitor.CheckAll: the table stays fixed during a pass except for the answers; other messages that arrive while a probe waits are not modelled, and power switching and delays are left out.
- Heartbeat.SlotBeat: every round counts as a probe; the queue refuses entries after thirty (radio/Radio_Encoder.c:71-81), so that a counted probe may never have been sent.
- Download.DownloadSafety: a write stores its bytes whatever was there before; a flash that only clears bits would not store them over what a failed write left behind. Without faults all writes go to erased bytes (Download.FillingStep).
- Download.Receiver.StartCmd: the partition exists, and payloads of both commands have at least the four bytes the code reads; the 256 and 512 byte package sizes are not selected in this configuration.
- RadioReceive.RadioRoundTrip: requires numbers that fit the 28 characters; longer texts are cut, and what is scanned from them then depends on the check digits.
- RadioReceive.NormalSolve: a frame whose numbers cannot be scanned changes nothing in the model, while the code goes on with unset variables; numbers too long for a `long` are scanned exactly.
- DeviceTable.RunRefines: upload flags set for the identifier 0, which no caller does, are left out: they would mark a free slot.
- The other radio messages (letters A, B and C), which only call operations modelled here with scanned arguments, and the LED, key and beeper reactions.
- STM32 and AX5043 drivers, logging, threads, timers, the shell, YMODEM, and the flash libraries.
