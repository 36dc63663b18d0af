# f1goal, modelled and proved in Dafny

f1goal is a C utility library.  This project models its six components with real state and proves
what they are for.  Every operation that changes state in place is a method with loops, arrays and
classes, proved against a specification function or relation; the laws are lemmas about those.

| files | component |
|---|---|
| `Common.dfy` | bytes, status codes, optional values and a few constants that the others share |
| `Queues.dfy`, `QueueSelection.dfy`, `Dispatcher.dfy`, `DispatcherRuns.dfy` | the lock-free worker queues: the ring buffer, the choice of a queue, and the whole server as a transition system in which every load and store is a step of its own |
| `Templates.dfy`, `TemplateLaws.dfy`, `TemplateEndings.dfy`, `DataSets.dfy` | the template engine, which compacts `$$` inside the buffer its nodes point into, against a one-pass meaning of the text |
| `Charset.dfy`, `CharsetConversions.dfy`, `CharsetLaws.dfy`, `PercentDecoding.dfy`, `PercentLaws.dfy` | GBK, UCS-2 and UTF-8 conversions and percent-decoding |
| `BasicFuncs.dfy`, `HttpBuilder.dfy`, `HttpParser.dfy`, `HttpRoundTrip.dfy`, `HttpRequests.dfy` | building and parsing HTTP requests |
| `Ini.dfy`, `IniBlocks.dfy`, `IniReader.dfy`, `LetterCase.dfy` | reading INI files, block by block, and finding items in any letter case |
| `Checksum.dfy`, `PerfMon.dfy`, `BiTrees.dfy` | ones'-complement checksums, the growing pool of samples, the search tree with its height field |

Shape of the proofs.  A file holds a specification (what a text, a buffer or a run means), laws about
the specification, and the operations proved to follow it.  Each module is in the file of its name.
Predicates of the form `forall x :: LookInside(x) ==> P` hide `P` from the solver until
`LookInside(0)` is mentioned; they mean `P` and nothing else.
What a specification takes from tables of its own (codes, names, ranges, numbers) is told a second
time by laws that write those out: `TemplateLaws`, `CharsetLaws`, `PercentLaws`, `LetterCase`,
`HttpRequests` and `DispatcherRuns`.

Findings: where the code does not keep what it sets out to, the exact condition is proved, and a
concrete input shows the failure.

| what goes wrong | exactly when | an input |
|---|---|---|
| a template loses the last byte of its text | it does not end in a closed `${name}` behind an odd number of `$`: `TemplateEndings.CompleteExactly` | `TemplateEndings.LetterIsLost` |
| a header that is already present is taken again, because `bit_array_bit_value` returns an unmasked shift | a header with a higher id of the same group of eight is present: `HttpBuilder.DuplicateIsRefused` | `HttpBuilder.SecondHostIsTaken` |
| a Referer does not come back | it is not empty and has no slash before its last byte: `HttpRoundTrip.ValueComesBack` | `HttpRoundTrip.RefererIsLost` |
| a GET line with nothing behind its line end is refused, because the last byte of the data is not looked at | there is no further byte: `HttpRequests.OneByteMore` | `HttpRequests.LineAloneIsRefused` |
| an INI file loses its earlier sections, because growth copies `sec_num` sections and `sec_num` is set only after the last line | there are more sections than the array was made for, save a lone first one that is empty and nameless: `Ini.ReadIsExact` | `Ini.FirstSectionIsLost` |
| `ini_read` does not handle a file as it stands: at the end of a block it keeps too little, so that the line across the end, or the line behind it, is lost | a file without NULs is longer than a block: `IniBlocks.SeenAsItIs` | `IniBlocks.SectionBehindBlockIsLost`, for every block size |
| a segment filled by `tcp_chk_sum`, which complements twice and sums over unset padding, is rejected by a receiver | twice its sum plus the padding is no multiple of 65535, or the sum is 0: `Checksum.TcpSegmentAccepted` | `Checksum.SegmentIsRejected` |
| partial checksums do not add up | the first part has odd length and the second feels a swap of its bytes: `Checksum.PartialSumsCompose` | `Checksum.OddPartsDiffer` |
| a dump reports a sample that was never taken | a stray end has met a node that an earlier dump left marked: `PerfMon.EachDumpReportsItsOwn` | `PerfMon.StrayEndIsReported` |
| the height field of a tree is not its height | some node has two children that have children: `BiTrees.BuiltTree` | `BiTrees.WideTree` |
| an escape of characters that are no hex digits is decoded, each of them counting as the digit 0 | neither of the two is a NUL: `PercentLaws.BadEscapeIsRefused` | `PercentLaws.LettersAreNul` |
| percent-decoding to UTF-8 reports success with input left unread | the text stands for more bytes than the buffer has, counting one for each `%` with its two characters and one for every other character: `PercentDecoding.ReadsAllIfRoom` | `PercentDecoding.SecondLetterIsUnread` |
| a percent decoder writes its terminator one byte behind the buffer | the text stands for exactly as many bytes as the buffer has: `PercentDecoding.TerminatorInside` | `PercentDecoding.LetterFillsBuffer` |
| so does a conversion that succeeds | the codes of the input, as they are written, take exactly as many bytes as the buffer has: `CharsetConversions.TerminatorHasRoom` | `CharsetConversions.LetterLeavesNoPlace` |
| `cmp_str` takes different strings for equal | they differ only at positions that the halving skips, and there are such positions from 512 characters on: `BasicFuncs.AgreeIsEquality` | `BasicFuncs.LongStringsAgree` |

## Model

| member | source | states |
|---|---|---|
| Queues.NextIsModulo | f1goal/src/f1g_queue.c:57-60 | the code's `(i + 1) % n` is the successor in the ring |
| Queues.FillIsInvisible | f1goal/src/f1g_queue.c:121-124 | writing the free tail block changes nothing that a reader can see, full queue or not |
| Queues.MovePublishes | f1goal/src/f1g_queue.c:126-136 | advancing the tail appends exactly the filled block, or nothing when the queue is full |
| Queues.PopDropsOldest | f1goal/src/f1g_queue.c:62-75 | pop removes the oldest payload and keeps the others in order |
| Queues.AddIsFillThenMove | f1goal/src/f1g_queue.c:77-136 | adding has the same abstract effect as filling the free block and moving the tail, also when full |
| Queues.StepRefinesFifo | f1goal/src/f1g_queue.c:52-136 | each operation on the ring is that operation on a FIFO bounded by blk_num - 1 |
| Queues.RunRefinesFifo | f1goal/src/f1g_queue.c:52-136 | so is every sequence of operations |
| Queues.Queue.constructor | f1goal/src/f1g_queue.c:26-40 | a new queue is well formed and empty |
| Queues.Queue.Empty | f1goal/src/f1g_queue.c:52-55 | true exactly when there is no live payload |
| Queues.Queue.Full | f1goal/src/f1g_queue.c:57-60 | true exactly when blk_num - 1 payloads are live |
| Queues.Queue.Pop | f1goal/src/f1g_queue.c:62-75 | the in-place pop is the pop of the ring and drops the oldest payload |
| Queues.Queue.Add | f1goal/src/f1g_queue.c:77-96 | error exactly when the size does not fit; otherwise the payload is appended if there is room |
| Queues.Queue.Head | f1goal/src/f1g_queue.c:98-105 | the oldest payload, or nothing exactly when empty |
| Queues.Queue.Tail | f1goal/src/f1g_queue.c:107-119 | the newest payload, or nothing exactly when empty |
| Queues.Queue.FillFreeBlock | f1goal/src/f1g_queue.c:121-124 | the contents stay the same while the free block takes the bytes |
| Queues.Queue.MoveNext | f1goal/src/f1g_queue.c:126-136 | fails exactly when full, and otherwise publishes the free block |
| QueueSelection.DigHash | f1goal/src/f1g_server.c:236-245 | wrapping at every step amounts to one wrap of the base-32 number at the end |
| QueueSelection.SelQueByIp | f1goal/src/f1g_server.c:247-250 | an existing queue index that depends on the address alone |
| QueueSelection.QueueOfAddress | f1goal/src/f1g_server.c:236-250 | the queue of an address by its four bytes in memory, read as signed characters with weights 32768, 1024, 32 and 1 |
| Dispatcher.WorkerKeepsWriter | f1goal/src/f1g_queue.c:62-75 | no worker step disturbs what the access thread relies on, even between its two loads |
| Dispatcher.AdvanceKeepsLane | f1goal/src/f1g_queue.c:126-136 | the store of `tail` publishes the event whatever the worker is doing |
| Dispatcher.StepKeepsInvariant | f1goal/src/f1g_server.c:184-293 | every load or store of every thread keeps the invariant |
| Dispatcher.ExecutionKeepsInvariant | f1goal/src/f1g_server.c:184-293 | the invariant holds in every state of every interleaving |
| Dispatcher.DeliveredInOrder | f1goal/src/f1g_server.c:184-231 | what a worker reads of its j-th block is the j-th event whose advance succeeded: none lost, repeated, reordered or changed |
| Dispatcher.FillingIsPrivate | f1goal/src/f1g_server.c:274-288 | the block being filled is never live nor in a worker's hands, even when the queue is full; a head is never missing |
| Dispatcher.TestRemembers | f1goal/src/f1g_queue.c:57-60 | between its two loads the full test remembers whether the queue was full at the first, however much workers pop in between |
| Dispatcher.FailsExactlyWhenFull | f1goal/src/f1g_queue.c:126-136 | in every interleaving the advance gives up exactly if the queue was full when `front` was loaded |
| Dispatcher.FailureLosesOnlyTheEvent | f1goal/src/f1g_queue.c:126-136 | in every interleaving a failed advance changes no queue, loses only the event in hand, and follows a load of `front` for that event with the queue full |
| Dispatcher.SourceStaysInOneQueue | f1goal/src/f1g_server.c:268-288 | all accepted events of a source address are in one queue, in arrival order |
| Dispatcher.SourceConsumedInOrder | f1goal/src/f1g_server.c:184-293 | every worker has consumed a prefix of each of its sources' accepted events and nothing of other sources |
| DispatcherRuns.ExecutionIsDriven | f1goal/src/f1g_server.c:184-293 | every execution is driven by some sequence of steps |
| DispatcherRuns.ArrivalsAreHandled | f1goal/src/f1g_server.c:268-288 | at every moment the events dealt with and the one in hand are exactly those detected, in order and with every field |
| DispatcherRuns.ArrivalsAreDelivered | f1goal/src/f1g_server.c:184-293 | each worker has read of its j-th block the fields of the j-th arrival accepted for its queue, and the block in its hands is that arrival |
| DispatcherRuns.ReadsTheArrival | f1goal/src/f1g_server.c:190-214 | whatever a worker reads next of its block is that field of the arrival |
| DispatcherRuns.SourcesAreDelivered | f1goal/src/f1g_server.c:184-293 | of each source of its queue a worker has consumed the accepted arrivals from the first on, and nothing of other sources |
| DispatcherRuns.WorkerTakesUp | f1goal/src/f1g_server.c:184-193 | alone, a worker with a non-empty queue holds the front block after five steps |
| DispatcherRuns.WorkerGivesUp | f1goal/src/f1g_queue.c:62-75 | and after eight more has popped it as que_obj_pop does without threads |
| DispatcherRuns.AccessFills | f1goal/src/f1g_server.c:274-283 | alone, the access thread puts the event and its length into the tail block |
| DispatcherRuns.AccessAdvances | f1goal/src/f1g_queue.c:126-136 | and then advances the tail, or gives up exactly if the queue is full |
| DataSets.LookupFindsFirst | f1goal/src/f1g_data_set.c:133-146 | the search returns the first entry whose name begins with the key, ignoring case |
| DataSets.LookupAfterAppend | f1goal/src/f1g_data_set.c:104-146 | a later variable never hides an earlier one |
| DataSets.DataSet.ExtendKeys | f1goal/src/f1g_data_set.c:51-70 | growing the key array keeps all variables |
| DataSets.DataSet.AddStrVar | f1goal/src/f1g_data_set.c:104-131 | names of 1 to 64 characters append a variable, others change nothing |
| DataSets.DataSet.Enlarge | f1goal/src/f1g_data_set.c:8-25 | a larger value buffer keeps what was in use |
| DataSets.DataSet.GetVal | f1goal/src/f1g_data_set.c:133-146 | the value found is the one the specification looks up |
| LetterCase.SameByCharacters | f1goal/src/f1g_smart_conf.c:251-253 | names are the same exactly if their characters are, one by one, equal or the two cases of an ASCII letter |
| LetterCase.PrefixByCharacters | f1goal/src/f1g_data_set.c:139 | a key matches exactly the names that begin with it in this sense |
| LetterCase.FindInAnyCase | f1goal/src/f1g_smart_conf.c:243-262 | names in capitals or in small letters find the same item |
| LetterCase.LookupInAnyCase | f1goal/src/f1g_data_set.c:133-146 | and the same variable |
| LetterCase.ServerIsFound | f1goal/src/f1g_smart_conf.c:243-262 | an item found under names in other cases, and a bracket that is not taken for a brace |
| Templates.TokensOfUnparse | f1goal/src/f1g_template.c:82-168 | every list of characters and well-named references is the meaning of some text |
| Templates.TokensAreWritable | f1goal/src/f1g_template.c:137-163 | and every text means such a list: no name has a bad character or a bad length |
| Templates.CloseGap | f1goal/src/f1g_template.c:95-100 | the overlapping move closes the gap by one place and leaves the rest alone |
| Templates.Scanning | f1goal/src/f1g_template.c:90-165 | the in-place state machine terminates, writes only inside the text it scans, and fails only on texts without meaning |
| Templates.FindVariable | f1goal/src/f1g_template.c:82-168 | the compacted text and the braces found split the meaning of the original text |
| Templates.AllToksFrame | f1goal/src/f1g_template.c:217-248 | nodes in front of a position do not notice changes behind it |
| Templates.Template.constructor | f1goal/src/f1g_template.c:13-34 | a new template has no nodes |
| Templates.Template.ExtendCap | f1goal/src/f1g_template.c:322-341 | growth keeps the nodes |
| Templates.Template.AddNode | f1goal/src/f1g_template.c:343-366 | appends one node, growing when full |
| Templates.Template.ParseRound | f1goal/src/f1g_template.c:217-248 | a round changes no byte in front of it, leaves all nodes inside the shrinking text, and preserves the meaning of nodes plus rest |
| Templates.Template.Parse | f1goal/src/f1g_template.c:170-255 | succeeds exactly on non-empty texts with a meaning; the nodes then mean the text less the last byte of a trailing literal |
| Templates.Template.Exec | f1goal/src/f1g_template.c:257-320 | succeeds exactly when the rendering fits, and then writes it; otherwise writes a proper prefix |
| Templates.Template.ExecNodes | f1goal/src/f1g_template.c:269-314 | the execution loop: what is written is the whole rendering or as many nodes of it as fit |
| Templates.Template.RenderNode | f1goal/src/f1g_template.c:272-311 | one node contributes the value of its variable, nothing if absent, or its stretch of text |
| Templates.Render | f1goal/src/f1g_template.c:170-320 | parse and execute give exactly the one-pass meaning of the text, for any text, data set and buffer |
| Templates.PlainTextIsItself | f1goal/src/f1g_template.c:224-234 | a text without `$` and a closing newline renders to itself |
| TemplateLaws.NameCharsByCode | f1goal/src/f1g_template.c:57-76 | the characters of a name by their codes |
| TemplateLaws.PlainGrammar | f1goal/src/f1g_template.c:90-135 | a doubled flag is one flag, and what opens no reference stands for itself |
| TemplateLaws.ReferenceGrammar | f1goal/src/f1g_template.c:102-163 | a closed name of 1 to 64 characters is a reference, an unclosed one is plain text, anything else has no meaning |
| TemplateLaws.ReferenceRenders | f1goal/src/f1g_template.c:272-311 | a reference renders to the value of the first variable whose name begins with it, or to nothing |
| TemplateLaws.RefusedExactly | f1goal/src/f1g_template.c:170-255 | a text is refused exactly if it is empty or outside the grammar |
| TemplateLaws.LineRenders | f1goal/src/f1g_template.c:170-320 | plain text and a reference render to the text and the value |
| TemplateEndings.LastTokenIsReference | f1goal/src/f1g_template.c:90-165 | the last token of a text is a reference exactly when the text ends in one that is not escaped |
| TemplateEndings.CompleteByTokens | f1goal/src/f1g_template.c:224-234 | a rendering is complete exactly when the last token is a reference |
| TemplateEndings.CompleteExactly | f1goal/src/f1g_template.c:224-234 | a rendering is complete exactly when the text ends in a closed reference that is not escaped, and otherwise lacks exactly its last byte |
| TemplateEndings.LetterIsLost | f1goal/src/f1g_template.c:224-234 | the text of one letter renders to nothing |
| Charset.DecodeOfEncode | f1goal/src/charset_code.c:336-424 | decoding undoes encoding of every code, surrogates included, whatever follows |
| Charset.ConvertMeans | f1goal/src/charset_code.c:232-492 | a conversion succeeds exactly if its input has a meaning and the meaning fits, and then yields it |
| Charset.AmpleRoom | f1goal/src/charset_code.c:232-492 | three output bytes for each input byte are always enough |
| Charset.GbkUtf8ThroughUcs2 | f1goal/src/charset_code.c:232-275 | the direct conversion has the meaning of the composed one |
| Charset.Utf8GbkThroughUcs2 | f1goal/src/charset_code.c:277-323 | likewise in the other direction |
| Charset.DirectAgreesWithComposed | f1goal/src/charset_code.c:232-489 | with ample buffers direct and composed calls succeed together, with equal bytes |
| Charset.Ucs2SurvivesUtf8 | f1goal/src/charset_code.c:336-424 | utf8_to_ucs2 undoes ucs2_to_utf8 on every even-length buffer |
| Charset.EncodeOfDecode | f1goal/src/charset_code.c:393-418 | re-encoding restores a decoded sequence exactly when it was shortest-form with proper continuation bytes |
| Charset.Utf8SurvivesUcs2 | f1goal/src/charset_code.c:336-424 | ucs2_to_utf8 undoes utf8_to_ucs2 exactly on canonical input |
| Charset.Utf8DecoderInjective | f1goal/src/charset_code.c:393-418 | on canonical input the masking decoder is injective |
| CharsetLaws.PairsByWeight | f1goal/src/charset_code.c:415-416 | a pair is written big-endian |
| CharsetLaws.FormsByWeight | f1goal/src/charset_code.c:347-369 | which codes take one, two or three bytes of UTF-8, and with which weights |
| CharsetLaws.DecoderByWeight | f1goal/src/charset_code.c:393-418 | what the decoder makes of any bytes: only the low bits of the following bytes count, overlong forms included |
| CharsetLaws.RestDecides | f1goal/src/charset_code.c:232-489 | behind input that is converted the rest decides, and what was converted is written |
| CharsetLaws.BadInputIsReported | f1goal/src/charset_code.c:393-418 | 2 for a unit cut short, 3 for a byte that begins none, with what came before written |
| CharsetLaws.UnmappedCodeIsReported | f1goal/src/charset_code.c:249-251 | 3 for a code without a mapping |
| CharsetLaws.FullBufferIsReported | f1goal/src/charset_code.c:252-268 | 1 for a code without room: a free place for one byte, one place more for longer units |
| CharsetConversions.LastRowCounts | f1goal/src/charset_code.c:46-53 | of several rows for a code the last one counts |
| CharsetConversions.OthersAreUnmapped | f1goal/src/charset_code.c:43-44 | a code without a row is not mapped |
| CharsetConversions.LoadedMapsAreInverse | f1goal/src/charset_code.c:38-56 | any table that is one-to-one apart from 0xFFFF gives mutually inverse maps |
| CharsetConversions.GbkComesBack | f1goal/src/charset_code.c:232-489 | ucs2_to_gbk undoes gbk_to_ucs2, and utf8_to_gbk undoes gbk_to_utf8, on every buffer the latter accepts |
| CharsetConversions.CallsUndoEachOther | f1goal/src/charset_code.c:232-489 | the round trips for the calls themselves, with ample buffers; UTF-8 exactly on canonical input |
| CharsetConversions.MappedIsMeaningful | f1goal/src/charset_code.c:249-251 | with a loaded table exactly the buffers of mapped pairs can be converted from GBK |
| CharsetConversions.TerminatorHasRoom | f1goal/src/charset_code.c:271-272 | a success has a place for its terminator exactly if the written lengths of the input's codes do not add up to the size; that they do needs UTF-8 output with a last ASCII byte, or no room at all |
| CharsetConversions.LetterLeavesNoPlace | f1goal/src/charset_code.c:371-372 | one letter and a buffer of one byte |
| CharsetConversions.GbkThereAndBack | f1goal/src/charset_code.c:38-542 | load a one-to-one table, convert from GBK to UTF-8 or UCS-2 and back through lc_conv: the bytes come back exactly for buffers of mapped pairs, others are refused |
| CharsetConversions.Utf8ThereAndBack | f1goal/src/charset_code.c:494-542 | from UTF-8 to UCS-2 and back: the bytes come back exactly if they are canonical |
| CharsetConversions.Ucs2ThereAndBack | f1goal/src/charset_code.c:494-542 | from UCS-2 to UTF-8 and back: the bytes come back, and exactly odd lengths are refused |
| CharsetConversions.PutUtf8 | f1goal/src/charset_code.c:347-369 | writes the encoded code exactly when there is room |
| CharsetConversions.TakeUtf8 | f1goal/src/charset_code.c:393-418 | reads the sequence the specification decodes, with its error |
| CharsetConversions.Converter.constructor | f1goal/src/charset_code.c:38-56 | the two filled arrays hold the rows in front of the last, in both directions |
| CharsetConversions.Converter.GbkToUtf8 | f1goal/src/charset_code.c:232-275 | output, error, length and terminator are those of the conversion |
| CharsetConversions.Converter.Utf8ToGbk | f1goal/src/charset_code.c:277-323 | the same for UTF-8 to GBK |
| CharsetConversions.Converter.Ucs2ToUtf8 | f1goal/src/charset_code.c:336-375 | the same for UCS-2 to UTF-8 |
| CharsetConversions.Converter.Utf8ToUcs2 | f1goal/src/charset_code.c:383-424 | the same for UTF-8 to UCS-2 |
| CharsetConversions.Converter.GbkToUcs2 | f1goal/src/charset_code.c:426-456 | the same for GBK to UCS-2 |
| CharsetConversions.Converter.Ucs2ToGbk | f1goal/src/charset_code.c:458-489 | the same for UCS-2 to GBK |
| CharsetConversions.Converter.LcConv | f1goal/src/charset_code.c:494-542 | runs the conversion with that number; an unknown number changes nothing |
| PercentDecoding.HexChar | f1goal/src/charset_code.c:14-34 | both spellings of a digit are looked up as its value |
| PercentLaws.DigitsAreKnown | f1goal/src/charset_code.c:14-34 | the digits, written out in either case, have their values |
| PercentLaws.BadEscapeIsRefused | f1goal/src/charset_code.c:94-96 | an escape that is none is refused exactly if it has a NUL |
| PercentLaws.LettersAreNul | f1goal/src/charset_code.c:94-99 | %zz is decoded to a NUL |
| PercentLaws.FollowersByBits | f1goal/src/charset_code.c:99-105 | a lead byte asks for one byte less than it has leading one bits, if it has none or two to six |
| PercentLaws.PairsOfGbk | f1goal/src/charset_code.c:139-150 | the accepted pairs are those of the two byte ranges less the three areas for user-defined characters |
| PercentLaws.Utf8IsDecoded | f1goal/src/charset_code.c:77-137 | every percent-encoding of the UTF-8 of any codes is decoded to it in any buffer that is large enough |
| PercentLaws.CharactersAreDecoded | f1goal/src/charset_code.c:74 | the example of the comment, and one of GBK |
| PercentLaws.RestDecides | f1goal/src/charset_code.c:77-203 | behind an encoding of units that fit the rest of the text decides |
| PercentLaws.Utf8Errors | f1goal/src/charset_code.c:86-126 | which text ends the UTF-8 decoder with which number, and that a full buffer ends it with success |
| PercentLaws.GbkErrors | f1goal/src/charset_code.c:152-195 | the same for the GBK decoder, which reports a full buffer |
| PercentDecoding.AcceptedOutputIsUnits | f1goal/src/charset_code.c:77-203 | whatever either decoder accepts splits into units: ASCII and complete characters |
| PercentDecoding.UnitsAreRead | f1goal/src/charset_code.c:77-203 | every percent-encoding of a unit string that fits, in either hex case, is decoded to it |
| PercentDecoding.OutputFits | f1goal/src/charset_code.c:107-195 | accepted output leaves a place, or fills the buffer, for GBK only with a last ASCII byte |
| PercentDecoding.DecodingUndoesEncoding | f1goal/src/charset_code.c:77-203 | decoding an encoding gives back the bytes exactly when they are a unit string that fits |
| PercentDecoding.EscapeAllEncodes | f1goal/src/charset_code.c:89-96 | escaping every byte is such an encoding |
| PercentDecoding.UnreadMeansFull | f1goal/src/charset_code.c:107-136 | a success that leaves input unread is one of the UTF-8 decoder with a full buffer |
| PercentDecoding.ReadsAllIfRoom | f1goal/src/charset_code.c:107-136 | a success has read everything exactly if the text stands for no more bytes than there is room for; the output has that length, or fills the buffer |
| PercentDecoding.SecondLetterIsUnread | f1goal/src/charset_code.c:125 | two letters and a buffer of one byte: a success with the second letter unread |
| PercentDecoding.TerminatorInside | f1goal/src/charset_code.c:133 | the terminator is inside the given bytes exactly if the text stands for fewer |
| PercentDecoding.LetterFillsBuffer | f1goal/src/charset_code.c:133 | one letter and a buffer of one byte, in which the terminator has no place |
| PercentDecoding.Decoder.constructor | f1goal/src/charset_code.c:8-34 | the digit table as initialised |
| PercentDecoding.Decoder.HexByte | f1goal/src/charset_code.c:90-96 | two table look-ups give the byte of an escape, or -1 |
| PercentDecoding.Decoder.CopyFollowers | f1goal/src/charset_code.c:115-123 | the followers are stored exactly if all of them are escapes |
| PercentDecoding.Decoder.Utf8StrToUint | f1goal/src/charset_code.c:77-137 | result, output and length are those of the specified decoder; a terminator follows exactly if the whole input was read |
| PercentDecoding.Decoder.GbkStrToUint | f1goal/src/charset_code.c:152-203 | the same for the GBK decoder |
| BasicFuncs.FindIsFirst | f1goal/src/f1g_basic_funcs.c:91-113 | a search result is an occurrence and no earlier one exists |
| BasicFuncs.SkipsFromShort | f1goal/src/f1g_basic_funcs.c:54-73 | every position is compared exactly below 512 characters |
| BasicFuncs.SkippedByOneHalving | f1goal/src/f1g_basic_funcs.c:65-73 | up to 1025 characters, one is skipped in front of the middle and one or two at the end |
| BasicFuncs.AgreeIsEquality | f1goal/src/f1g_basic_funcs.c:49-80 | only equal strings are taken for equal exactly below 512 characters |
| BasicFuncs.LongStringsAgree | f1goal/src/f1g_basic_funcs.c:65-73 | two strings of 512 characters that differ and are taken for equal |
| BasicFuncs.TrimIs | f1goal/src/f1g_basic_funcs.c:143-178 | skipping and stripping take off the spaces at both ends and nothing else |
| BasicFuncs.CmpStr | f1goal/src/f1g_basic_funcs.c:49-80 | zero exactly when the strings agree at every position that is looked at |
| BasicFuncs.CmpStr2 | f1goal/src/f1g_basic_funcs.c:82-89 | true exactly when the stretch is long enough and begins with something taken for the string |
| BasicFuncs.FindStr | f1goal/src/f1g_basic_funcs.c:91-113 | the first place taken for an occurrence, or none; for short strings the first occurrence |
| BasicFuncs.SkipCharAt | f1goal/src/f1g_basic_funcs.c:143-152 | stops at the first other character |
| BasicFuncs.StripCharAt | f1goal/src/f1g_basic_funcs.c:169-178 | stops at the last other character |
| HttpBuilder.ReadsAsOne | f1goal/src/f1g_bit_array.c:46-53 | a bit's value is 1 exactly when it is the highest bit set in its byte |
| HttpBuilder.DuplicateIsRefused | f1goal/src/f1g_http.c:151-154 | a present header is refused exactly when it does not fit or no higher id of its group of eight is present |
| HttpBuilder.SecondHostIsTaken | f1goal/src/f1g_http.c:151-154 | the input for which the duplicate test fails |
| HttpBuilder.AbsentIsAccepted | f1goal/src/f1g_http.c:143-182 | an absent header is accepted exactly when its line fits with a place to spare |
| HttpBuilder.LengthShowsAcceptance | f1goal/src/f1g_http.c:143-182 | the message is as long as the lines offered exactly if every header was accepted |
| HttpBuilder.DistinctAreBuilt | f1goal/src/f1g_http.c:143-182 | headers with distinct ids are all accepted, in any order, and the buffer holds exactly their lines |
| HttpBuilder.HttpObject.constructor | f1goal/src/f1g_http.c:78-93 | a new object is an empty message |
| HttpBuilder.HttpObject.Create | f1goal/src/f1g_http.c:51-96 | the caller's buffer is taken if it is above the limit; without one small sizes get the default buffer and larger ones their own; the limit itself is refused |
| HttpBuilder.HttpObject.Reset | f1goal/src/f1g_http.c:129-140 | the object is an empty message again |
| HttpBuilder.HttpObject.AddHeader | f1goal/src/f1g_http.c:143-182 | the buffer, status bits and value positions after a line is added or refused |
| HttpParser.ReqHeader.constructor | f1goal/src/f1g_http_parser.c:188-191 | a cleared structure has no spans |
| HttpParser.ReqHeader.Classify | f1goal/src/f1g_http_parser.c:59-108 | the chain of comparisons finds the field a key names |
| HttpParser.ReqHeader.AddHeader | f1goal/src/f1g_http_parser.c:55-111 | exactly the spans of that field are set; a Referer is cut at its first slash |
| HttpParser.ReqHeader.ScanRequestLine | f1goal/src/f1g_http_parser.c:131-157 | the scans find the URI and version that the line spells, or that it is bad, with or without a URI |
| HttpParser.ReqHeader.ScanHeader | f1goal/src/f1g_http_parser.c:161-181 | the scans find key, value and next line, or the end |
| HttpParser.ReqHeader.Parse | f1goal/src/f1g_http_parser.c:113-186 | fails exactly when the data has no good request line; in either case the spans say what the specification says is left in the structure |
| HttpRoundTrip.HeaderIsRead | f1goal/src/f1g_http_parser.c:161-182 | a built header line is read back as its name, its value without edge spaces, and the rest |
| HttpRoundTrip.RequestLineIsRead | f1goal/src/f1g_http_parser.c:125-157 | a GET line is read back as its URI and version |
| HttpRoundTrip.HeaderLinesSpelled | f1goal/src/f1g_http.c:17-34 | the header lines as they are sent |
| HttpRoundTrip.OtherLinesSpelled | f1goal/src/f1g_http.c:143-182 | the request line and the closing line |
| HttpRoundTrip.BuiltRequestIsParsed | f1goal/src/f1g_http_parser.c:113-186 | the text of a built request is accepted and says what was put in |
| HttpRoundTrip.ParsingUndoesBuilding | f1goal/src/f1g_http.c:143-182 | any GET line and distinct headers in any order, closed by HTTP_HDR_END, are accepted, and parsing recovers URI, version and every header |
| HttpRoundTrip.ValueComesBack | f1goal/src/f1g_http_parser.c:87-99 | in the parse of a built request a value without edge spaces is itself; refer_host and refer_uri join to the Referer exactly if it is empty or has a slash before its last byte |
| HttpRoundTrip.RefererIsLost | f1goal/src/f1g_http_parser.c:89-94 | a Referer that does not come back |
| HttpRoundTrip.BuildRequest | f1goal/src/f1g_http.c:51-182 | creating an object and adding every line leaves exactly the request's text in its buffer |
| HttpRoundTrip.BuildAndParse | f1goal/src/f1g_http_parser.c:113-186 | the buffer built is the request's text, and the spans of the parsed structure cut the URI, the version and every header out of it |
| HttpRequests.LongestNameCounts | f1goal/src/f1g_http_parser.c:59-108 | a key belongs to the longest of the eight known names that it begins with |
| HttpRequests.OtherNames | f1goal/src/f1g_http_parser.c:59-108 | and to none if it begins with none |
| HttpRequests.RequestIsTaken | f1goal/src/f1g_http_parser.c:113-186 | any GET line and any header lines are accepted, and the headers are taken one after the other up to a line without a key |
| HttpRequests.HeaderGoesToItsField | f1goal/src/f1g_http_parser.c:59-108 | each of the seven plain headers, written out, sets the field of its name to its trimmed value and no other |
| HttpRequests.RefererIsCut | f1goal/src/f1g_http_parser.c:87-99 | a Referer is cut in front of its first slash, unless that is its last character or missing |
| HttpRequests.OtherHeadersAreIgnored | f1goal/src/f1g_http_parser.c:59-108 | a header with another name changes nothing |
| HttpRequests.AcceptedExactly | f1goal/src/f1g_http_parser.c:127-159 | exactly the texts are accepted that begin with a GET line, its URI and a known version; a refusal changes the URI at most |
| HttpRequests.AcceptedIsLaidOut | f1goal/src/f1g_http_parser.c:113-186 | every accepted text is a GET line, header lines and an ending, and the structure says what they say |
| HttpRequests.OneByteMore | f1goal/src/f1g_http_parser.c:123-128 | data is accepted exactly if a byte follows the line end of its GET line |
| HttpRequests.LineAloneIsRefused | f1goal/src/f1g_http_parser.c:123-128 | a GET line with its line end and nothing else is refused |
| Ini.RowIsRead | f1goal/src/f1g_smart_conf.c:153-216 | a line of any layout is understood as what it spells |
| Ini.RowsAreRead | f1goal/src/f1g_smart_conf.c:141-220 | any layout of a configuration with distinct names whose sections fit is read as that configuration |
| Ini.ReadOrRefused | f1goal/src/f1g_smart_conf.c:141-216 | of the texts whose sections fit exactly those are read whose rows are complete, with names below 64 characters, no two sections and no two items of a section having the same name; the others are refused |
| Ini.TooManyAreLost | f1goal/src/f1g_smart_conf.c:45-64 | with too many sections the earlier ones come out empty |
| Ini.TextIsRows | f1goal/src/f1g_smart_conf.c:141-217 | a text is read row by row, whatever its layout |
| Ini.ReadIsExact | f1goal/src/f1g_smart_conf.c:141-220 | the configuration is read exactly when its sections fit, or the only one in front of growth is empty and nameless |
| Ini.FirstSectionIsLost | f1goal/src/f1g_smart_conf.c:45-64 | two sections read into an array made for one: the first loses its name |
| Ini.LastSectionCounts | f1goal/src/f1g_smart_conf.c:243-262 | of the sections that have the item the last one counts, and in it the first such item |
| Ini.EveryItemIsFound | f1goal/src/f1g_smart_conf.c:243-262 | every item is found under its names in any letter case |
| Ini.FoundItemIsThere | f1goal/src/f1g_smart_conf.c:243-262 | what is found is an item of a section with those names |
| Ini.WrittenItemsAreFound | f1goal/src/f1g_smart_conf.c:141-262 | write a configuration down in any layout, read it, and every item is found with its value |
| IniBlocks.SeenAsItIs | f1goal/src/f1g_smart_conf.c:125-150 | what the block loop handles is the file exactly if the file fits into one block, or the first block ends with a line and fewer NULs than a block follow; without NULs, exactly if it fits |
| IniBlocks.FirstBlock | f1goal/src/f1g_smart_conf.c:141-150 | a full block is handled up to its last line end, and is followed by a NUL if it ends with one |
| IniBlocks.NextBlock | f1goal/src/f1g_smart_conf.c:127-150 | a block behind a carried character is one character short, which is carried behind a line end and otherwise lost |
| IniBlocks.SeenBehindLine | f1goal/src/f1g_smart_conf.c:127-139 | behind a first block that ends with a line comes a NUL, which hides the next line, and the last character is not looked at |
| IniBlocks.SectionBehindBlockIsLost | f1goal/src/f1g_smart_conf.c:125-150 | with any block size, a comment that fills the first block makes the section behind it disappear |
| IniBlocks.ReadsInTurn | f1goal/src/f1g_smart_conf.c:142-217 | whole lines and what follows them are read one after the other |
| IniReader.SkipSpaces | f1goal/src/f1g_smart_conf.c:153-154 | stops at the first character that is no space |
| IniReader.ScanName | f1goal/src/f1g_smart_conf.c:184-185 | stops where the name ends |
| IniReader.ScanValue | f1goal/src/f1g_smart_conf.c:202-207 | the value without trailing spaces |
| IniReader.ParseSection | f1goal/src/f1g_smart_conf.c:164-170 | a section line is what the specification says it is |
| IniReader.ParseValue | f1goal/src/f1g_smart_conf.c:199-213 | so is a value |
| IniReader.ExtendItems | f1goal/src/f1g_smart_conf.c:66-86 | more item slots, the same items |
| IniReader.SmartConf.constructor | f1goal/src/f1g_smart_conf.c:16-43 | no sections, and room for the wanted number or the default |
| IniReader.SmartConf.ExtendSecSize | f1goal/src/f1g_smart_conf.c:45-64 | twice the slots, of which sec_num are copied |
| IniReader.SmartConf.AddSectionAt | f1goal/src/f1g_smart_conf.c:159-176 | a section line extends the configuration, or fails on a duplicate |
| IniReader.SmartConf.AddItemAt | f1goal/src/f1g_smart_conf.c:179-215 | an item line does what the specification says, in the same order of tests |
| IniReader.SmartConf.ReadLine | f1goal/src/f1g_smart_conf.c:153-216 | so does any line |
| IniReader.FillBuffer | f1goal/src/f1g_smart_conf.c:127-128 | the buffer holds what was carried, and then as much of the file as fits |
| IniReader.SmartConf.ReadBlock | f1goal/src/f1g_smart_conf.c:139-217 | the whole lines of a block, and in the last one all, are read as the specification says; the rest is left |
| IniReader.SmartConf.ReadRound | f1goal/src/f1g_smart_conf.c:125-218 | a round of the block loop leaves what the specification says is still ahead |
| IniReader.SmartConf.IniRead | f1goal/src/f1g_smart_conf.c:119-224 | for any file and block size, the loops read exactly the configuration of what is seen of the file, or fail exactly when reading that does |
| IniReader.SmartConf.FindItemAt | f1goal/src/f1g_smart_conf.c:243-262 | the nested loops find the item the specification finds |
| IniReader.ReadAndFind | f1goal/src/f1g_smart_conf.c:16-262 | construct, read rows in any layout that fit into a block, find: reading succeeds exactly if the rows are complete and their names short and distinct, and then every item is found with its value in any letter case, and nothing else |
| Checksum.TwoFoldsSuffice | f1goal/src/f1g_net_forge.c:27-39 | summing first and folding twice equals word-by-word ones'-complement addition for every 16-bit length |
| Checksum.ZeroChecksum | f1goal/src/f1g_net_forge.c:16-42 | the checksum is 0 exactly when the sum is a non-zero multiple of 65535 |
| Checksum.ByteOrderIndependent | f1goal/src/f1g_net_forge.c:27-30 | a machine of the other byte order computes the same checksum bytes |
| Checksum.FilledHeaderVerifies | f1goal/src/f1g_net_forge.c:16-42 | zero the checksum word, fill it, and recomputing gives 0 |
| Checksum.PartialSumsCompose | f1goal/src/f1g_net_forge.c:44-66 | partial sums fold to the checksum of the whole exactly when the first length is even or the second sum feels no byte swap |
| Checksum.OddPartsDiffer | f1goal/src/f1g_net_forge.c:44-66 | two parts for which they do not |
| Checksum.Accumulate | f1goal/src/f1g_net_forge.c:27-35 | the 32-bit accumulator never overflows and holds the plain sum |
| Checksum.ChkSum | f1goal/src/f1g_net_forge.c:16-42 | the checksum of RFC 1071; 0xFFFF without data |
| Checksum.ChkSum2 | f1goal/src/f1g_net_forge.c:44-66 | the plain sum; -1 without data |
| Checksum.FillIpCheck | f1goal/src/f1g_net_forge.c:107-117 | the filled header has checksum 0 and is otherwise unchanged |
| Checksum.StructSum | f1goal/include/f1g_net_forge.h:18-24 | the pseudo header struct sums to the standard one plus its padding |
| Checksum.PseudoHeaderWords | f1goal/include/f1g_net_forge.h:18-24 | in network order the pseudo header sums to the halves of both addresses, the protocol and the length, and the struct to its padding more |
| Checksum.TcpChkSum | f1goal/src/f1g_net_forge.c:69-90 | the answer stands for the uncomplemented sum of both parts modulo 65535 |
| Checksum.TwiceComplemented | f1goal/src/f1g_net_forge.c:82-87 | complementing the sum of two complements gives that sum back |
| Checksum.TcpSegmentAccepted | f1goal/src/f1g_net_forge.c:69-90 | a segment filled this way passes a receiver's check exactly when twice its sum plus the padding is a multiple of 65535 and the sum is not 0 |
| Checksum.SegmentIsRejected | f1goal/src/f1g_net_forge.c:69-90 | a segment that is rejected |
| Checksum.ZeroPadding | f1goal/src/f1g_net_forge.c:69-90 | with zero padding, exactly when its proper checksum is 0 |
| Checksum.StandardSegmentAccepted | f1goal/src/f1g_net_forge.c:131 | the checksum that the standard asks for in this place makes every segment pass |
| PerfMon.EachDumpReportsItsOwn | f1goal/src/perf_mon.c:112-188 | over any mixture of starts, ends and dumps, each dump reports the pairs begun and ended since the previous one, in order, exactly when the run is clean |
| PerfMon.PairedRunsAreClean | f1goal/src/perf_mon.c:112-139 | paired starts and ends with dumps anywhere are clean |
| PerfMon.QuietRunsAreClean | f1goal/src/perf_mon.c:112-188 | so is any order without a dump between a start and the next end |
| PerfMon.MeasurementsComeBack | f1goal/src/perf_mon.c:112-188 | any measurements made one after the other are what the next dump reports |
| PerfMon.StrayEndIsReported | f1goal/src/perf_mon.c:112-188 | a run that is not, and whose reports differ from the measurements made, whatever the size of the pool |
| PerfMon.LinkListCreate | f1goal/src/perf_mon.c:53-68 | an acyclic list of as many zeroed nodes as asked for |
| PerfMon.MonPoint.constructor | f1goal/src/perf_mon.c:80-89 | the point shows an unused pool of the wanted or default size |
| PerfMon.MonPoint.StartHere | f1goal/src/perf_mon.c:119-122 | the current sample is begun, the list stays in order |
| PerfMon.MonPoint.EndHere | f1goal/src/perf_mon.c:124-132 | the sample is ended, no node is lost, and the size stays the list's length through growth |
| PerfMon.MonPoint.Here | f1goal/src/perf_mon.c:112-139 | dispatches on the status; any other status changes nothing |
| PerfMon.MonPoint.Statis | f1goal/src/perf_mon.c:162-188 | reports the complete samples of the walk, clears them and puts the cursor back |
| PerfMon.Measure | f1goal/src/perf_mon.c:70-188 | a whole run on one point reports the expected pairs exactly when it is clean |
| BiTrees.InsertAddsElement | f1goal/src/bitree.c:28-53 | insertion adds the element and loses none |
| BiTrees.InsertKeepsOrder | f1goal/src/bitree.c:28-53 | insertion keeps the strict order |
| BiTrees.InsertCounts | f1goal/src/bitree.c:28-53 | the result is the number of nodes that became inner nodes, and the heights below stay right |
| BiTrees.InOrderIncreases | f1goal/src/bitree.c:95-104 | the in-order walk of an ordered tree is strictly increasing |
| BiTrees.CountAgainstDepth | f1goal/src/bitree.c:9-13 | the stored number is at least the height, and equal exactly in a narrow tree |
| BiTrees.BuiltTree | f1goal/src/bitree.c:15-53 | after any insertions the walk gives exactly the inserted elements in order, and every height field counts inner nodes |
| BiTrees.WideTree | f1goal/src/bitree.c:28-53 | one creation and four insertions, after which the height field is 3 and the height 2 |
| BiTrees.BiTree.constructor | f1goal/src/bitree.c:15-26 | a single node |
| BiTrees.BiTree.Insert | f1goal/src/bitree.c:28-53 | the recursive pointer insertion is the insertion of the specification and keeps the nodes a tree |
| BiTrees.BiTree.AddHere | f1goal/test/test_bitree.c:17 | the caller adds the result to the node's height |
| BiTrees.Build | f1goal/test/test_bitree.c:15-18 | the tree that the test's loop builds |

## Left out

- Sockets, epoll, pcap, signals, clocks, file reading, printing, thread creation: foreign; byte sequences, event streams and times are parameters.
- The business logic of `worker_cb_dft` between head and pop (receiving, processing, sending, closing): foreign calls.
- Weaker memory than sequential consistency, and torn word accesses: outside the dispatcher's model.
- Failing `malloc` and `free`: every allocation succeeds.
- `data_set_add_int_var`, logging and all `snprintf` code: format semantics are not visible.
- QueueSelection.SelQueByIp: the bytes of the address are taken in little-endian order and `char` as signed.
- Queues.Queue.constructor: a block count of 0, for which the code computes a remainder by 0 later, is excluded.
- Queues.Queue.Add: the data pointer is a sequence with at least `size` bytes, as the caller guarantees.
- Queues.Queue.MoveNext: the free block holds a length that its block can have, as it does once a caller has filled it; before that it holds what `malloc` left.
- DispatcherRuns.ArrivalsAreDelivered: an event is stored field by field; `memcpy` may use other units, which no other thread can tell.
- DataSets.DataSet.AddStrVar: value buffers are values inside the key, so aliasing of `val` pointers is not modelled.
- Templates.Template.Parse: a second parse into the same object, which would leave the first buffer to the nodes, is excluded, and the overlapping `memcpy` is taken as a left shift.
- Templates.Template.constructor: an initial capacity of 0, which could never grow, is excluded.
- Charset.ConvertMeans: the maps have 0x10000 entries, one more than in the code, so the index 0xFFFF has a slot.  The real table (`f1goal/src/ucs2_gbk_map.c:134-260`) has 127 rows whose UCS-2 code is 0xFFFF, so `charset_map_init` stores behind its array on every start.
- CharsetConversions.Converter.constructor: the literal table is replaced by an arbitrary one that holds the closing row.
- PercentDecoding.Decoder.Utf8StrToUint: after a `%` only characters below 128 are in the table; others index outside it and are excluded, here and in the GBK decoder.
- HttpBuilder: exchanging the buffer of a living object, message bodies and responses are left out; they would only add easy members.
- HttpParser.ReqHeader.Parse: the method field, which is always GET, is not kept.
- IniReader.SmartConf.IniRead: blocks have at least two characters, `read` returns as many as asked for while the file has them, and the file does not change meanwhile.
- IniReader.SmartConf.AddItemAt: a value made of spaces only gets a negative length and an item in front of any section uses a null pointer in the code; both are undefined there and excluded by a precondition.
- Checksum.Accumulate: a little-endian machine, as `htons` and the byte store at line 33 suggest; ByteOrderIndependent covers the other kind for even lengths.
- Checksum.TcpChkSum: the two padding bytes of the pseudo header are never set; their value is a parameter.
- PerfMon.MonPoint.constructor: 0 preset times give a null list that the first measurement would use; excluded.  The array of points, their names and the report files are left out.
- BiTrees.BiTree.Insert: deletion and the AVL functions have empty or unfinished bodies in the source.
- `f1g_lang_code.c`: its tests of UTF-8 bytes compare before they mask, and its decoder drops unescaped hex characters, so there is no round trip to state; `charset_code.c` is modelled instead.
- `f1g_url_parser.c`, `f1g_data_op.c`, `f1g_regset.c`, `f1g_fl_mgr.c`, `basic_alg.c`: partly unfinished; parameters that outgrow their array, a missing last separator and a read past an array leave no result to state.
