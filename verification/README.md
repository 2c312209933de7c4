# A Dafny model of the byte-string, stream and message-queue code

This project models four parts of the repository and states what each promises as contracts and lemmas.
C objects whose fields are updated in place are classes; loops over buffers are methods with invariants;
each method is tied to a function or predicate on plain byte sequences, and the properties are lemmas
about those.

- **SDS representation** (`SdsString.dfy`): a string with a 5, 8, 16, 32 or 64-bit header, its content,
  spare space and terminator. Every operation keeps the representation and computes one operation on
  byte sequences. The reallocation policy has an amortised bound for every run of appends: at most twice
  the final length below 1 MiB, and quadratic with a small constant above it.
- **SDS text layer** (`SdsNumbers.dfy`, `SdsFormat.dfy`, `SdsSplit.dfy`, `SdsQuoting.dfy`,
  `SdsTokenizer.dfy`, `SdsGrammar.dfy`, `SdsWords.dfy`, `SdsRoundTrip.dfy`): integer printing, the format interpreter, splitting and joining,
  the quoting printer and the argument tokenizer. The tokenizer refines a scanner over the unread text,
  and the scanner accepts exactly the lines that a grammar of syntax trees derives. Quoted forms are such
  lines, which gives the round trip between the printer and the tokenizer for all lists of byte strings,
  on the functions and on the string objects.
- **Streams** (`ByteSource.dfy`, `FixedGrep.dfy`, `ReadBuffer.dfy`, `LineStream.dfy`): `read` returns an
  arbitrary nonempty prefix of what remains, nothing at the end, or a failure. The chunked search writes
  what the whole-file search writes. The line iterator returns the lines of the input whatever the reads
  do, examines each byte once when nothing fails, and keeps its buffer bounded by the longest line.
- **Message queue** (`MessageRing.dfy`, `Broadcast.dfy`, `MessageQueue.dfy`): the ring as a bounded FIFO,
  and the broadcast protocol over runs of registrations, enqueues, flushes that may fail halfway, and
  drops of slow clients. Any sequence of requests on the objects is such a run, and when no write fails
  every delivery brings a client the whole log unless the ring filled up before its first flush.

`Bytes.dfy` holds the byte type, C strings and the character classes of the C locale.

What the code computes with (character classes, escapes, the denotation of a format, the printed output,
the log) is a function that methods refine. What is promised is said a second time without that function:
by byte codes (`AsksFor`, `ShownAs`, the tables of the grammar, `IsWordEnd`), by position in text and output
(`FindsAll`, `Reports`), or from the requests alone (`Posted`). A lemma connects the two, in both directions
where there is an answer to be unique.

Conventions: a byte is 0..255 and `size_t` has 64 bits. A C string argument is its bytes up to and
including the terminator, so that every index into it is a legal read. `None` stands for a NULL result.
An `Sds` object stands for the pointer that an SDS function returns and its caller reassigns. Requests
are small enough that header, content and preallocation fit in `size_t` (`Sizeable`). Failures of
`read`, `write` and (for the read buffer) `malloc` are nondeterministic choices, and each is counted in a
ghost field, so that an error result can be traced to the failure behind it.

## Where the code does not do what it seems to promise

- `message_queue__q` resets `start` to slot 0 on an empty ring but stores at slot `end`
  (tcp/polling/message_q.c:47-49). Enqueueing appends exactly when the ring holds messages or `end` is 0
  (`EnqueueAppendsIff`), and a run is a FIFO run exactly when all its enqueues meet this guard
  (`RunIsFifoIff`). `ReuseAfterDrainBreaks` is a three-step run that does not. The guard is also exactly
  what keeps `get` and `dq` from a NULL slot (`NeverNullIff`).
- When the ring is full, `start`, `end` and the offset of a client that has read nothing coincide, so a
  flush of that client succeeds without writing (tcp/polling/message_q.c:139-151). A successful flush
  brings the client the whole log exactly when this is not the case (`FlushDelivers`). From then on
  nothing is ever sent to that descriptor, not even to a client that takes it later (`SilentForEver`,
  `StarvedForEver`; `FullQueueStarves` is a run into it).
- For the same reason `message_queue__drop_slow_consumers` (tcp/polling/message_q.c:179-189) drops, from a
  full ring of at least three slots, a client that has received everything along with those that have
  received less than 40% of the capacity (`DropsTheSlowAndTheDone`). Dropping frees no slot, so the
  second enqueue of the server fails whenever the first found the queue full (`Receive`).
- White space that separates tokens in `sdssplitargs` has six members, but only four of them end an
  unquoted token (commons/src/sds/sds.c:981, 1042-1048). On a line without quotes the tokens are the
  white-space separated words exactly when no vertical tab or form feed directly follows a byte that is
  no white space (`TokensAreWordsIff`; `SoftSpaceStays` is such a line). The grammar describes the lines
  as the code reads them (`StartsWord`, `Ends`).

## Model

| member | source | states |
|---|---|---|
| Bytes.CharacterCodes | commons/src/sds/sds.c:903-915 | the named byte constants are the characters the code writes them as |
| Bytes.CStringIsTerminated | commons/src/sds/sds.c:154-157 | a C string is any bytes other than 0 with a 0 behind them, and its text is those bytes |
| SdsString.ReqType | commons/src/sds/sds.c:60-74 | the chosen header holds the length and no narrower header does |
| SdsString.LimitIsPowerOfTwo | commons/include/sds.h:47-74 | each header's limit is two to the width of its length field, 5, 8, 16, 32 or 64 bits |
| SdsString.Sds.constructor | commons/src/sds/sds.c:89-145 | a new string holds the given bytes, is terminated, has no spare space, and an empty one gets the 8-bit header |
| SdsString.Sds.SetLen | commons/include/sds.h:130-152 | a length reads back exactly when the header can hold it; otherwise what is stored differs from it by a multiple of the limit |
| SdsString.Sds.SetAlloc | commons/include/sds.h:197-216 | the allocation reads back exactly when the header can hold it; a type 5 string keeps reading its length |
| SdsString.Sds.Reallocate | commons/src/sds/sds.c:230-246 | content and terminator are copied across any header change and the new allocation reads back |
| SdsString.Sds.MakeRoomFor | commons/src/sds/sds.c:204-248 | room for the request, content and the byte after it unchanged across any header change, the bytes moved, and the new allocation: twice what is required below 1 MiB, 1 MiB more from there on |
| SdsString.Sds.RemoveFreeSpace | commons/src/sds/sds.c:256-291 | same content, no spare space, a buffer of length + 1, the bytes it moved, and the header: type 5 below 32 bytes, type 8 below 256, otherwise the one it had |
| SdsString.Sds.IncrLen | commons/src/sds/sds.c:334-373 | for every increment the assertions accept, those cut to unsigned int included, content is the buffer up to the compared length and the terminator follows |
| SdsString.StoredChange | commons/src/sds/sds.c:346-363 | the header arithmetic wraps to the length that the assertion compared |
| SdsString.ChangeIsCut | commons/src/sds/sds.c:334-363 | only decrements of the headers up to 32 bits and increments of the 32-bit one are cut, by multiples of 2^32 |
| SdsString.Sds.GrowZero | commons/src/sds/sds.c:380-391 | zero bytes up to the requested length, or no change |
| SdsString.Sds.CatLen | commons/src/sds/sds.c:398-407 | content is the old content and the appended bytes; the space account advances as stated by `Appended` |
| SdsString.Sds.CopyBehind | commons/src/sds/sds.c:403-404 | copying behind the content and setting the length appends the bytes and keeps the allocation |
| SdsString.Sds.CatAll | commons/src/sds/sds.c:398-407 | any number of appends on one string: content, space account after the whole run, and the amortised bound on bytes moved |
| SdsString.Sds.CpyLen | commons/src/sds/sds.c:427-436 | content is exactly the new bytes, whichever header held the old ones |
| SdsString.RunStaysWellSpent | commons/src/sds/sds.c:204-248 | every run of appends keeps the relation between length, allocation and bytes moved |
| SdsString.AmortisedAppend | commons/src/sds/sds.c:204-248 | building any string by appends moves at most twice its length below 1 MiB, and at most len * (len + 4 MiB) / 2 MiB bytes in general |
| SdsString.Sds.TrimBounds | commons/src/sds/sds.c:729-732 | the two scans stop at the maximal middle, for empty and all-trimmed strings too; the set is a C string, whose terminator `strchr` finds as well |
| SdsString.Sds.KeepMiddle | commons/src/sds/sds.c:733-736 | the middle moves to the front of the same buffer |
| SdsString.Sds.Trim | commons/src/sds/sds.c:725-738 | the content becomes a middle that starts and ends outside the set, with only set members and NUL bytes removed |
| SdsString.TrimIsUnique | commons/src/sds/sds.c:711-724 | there is only one such middle |
| SdsNumbers.DigitsAreCanonical | commons/src/sds/sds.c:470-474 | the digits parse back to the value and have no leading zero |
| SdsNumbers.DecimalIsUnique | commons/src/sds/sds.c:444-449 | a text is canonical for a number if and only if it is `Decimal` of that number |
| SdsNumbers.DigitCount | commons/src/sds/sds.c:450 | the digit bound behind the 21-byte budget |
| SdsNumbers.PutDigitsReversed | commons/src/sds/sds.c:500-504 | the do-while loop leaves the digits in reverse, at most 20 of them |
| SdsNumbers.ReverseInPlace | commons/src/sds/sds.c:510-518 | the two-pointer loop reverses the text in place |
| SdsNumbers.TerminateReversed | commons/src/sds/sds.c:506-518 | terminated and reversed, the text stands in reading order |
| SdsNumbers.FinishSigned | commons/src/sds/sds.c:477-490 | the sign that is put last comes first, within the same 21 bytes |
| SdsNumbers.Ull2Str | commons/src/sds/sds.c:494-520 | the canonical decimal text, its length, the terminator, nothing written past 21 bytes |
| SdsNumbers.Ll2Str | commons/src/sds/sds.c:451-491 | the same for signed values, LLONG_MIN included |
| SdsFormat.FormatPrintsItsPieces | commons/src/sds/sds.c:605-615 | the format spelling any list of plain bytes, verbatim bytes and directives prints those pieces, each directive the text that shows its argument; a trailing '%' and spare arguments add nothing |
| SdsFormat.EveryFormatHasPieces | commons/src/sds/sds.c:605-615 | every format with its arguments is such a spelling |
| SdsFormat.ShownIsArgText | commons/src/sds/sds.c:645-690 | the text of an argument is the one that shows it: the C string's bytes up to the terminator, the sds bytes, or the canonical decimal text that parses back to the number |
| SdsFormat.AsksForWhatItDenotes | commons/src/sds/sds.c:605-615 | a text is what format and arguments ask for, read by byte codes ('%' 37, s 115, S 83, i 105, I 73, u 117, U 85), if and only if the arguments are supplied and it is the denotation |
| SdsFormat.Convert | commons/src/sds/sds.c:645-690 | a directive contributes the text that shows its argument: string bytes, or canonical decimal that parses back to the value, through the 21-byte buffer |
| SdsFormat.Place | commons/src/sds/sds.c:650-655 | growing when needed and copying at the write position appends the text and keeps the length |
| SdsFormat.PutByte | commons/src/sds/sds.c:691-700 | one byte goes into space already made |
| SdsFormat.SpareByte | commons/src/sds/sds.c:635-638 | there is room for one byte, content unchanged |
| SdsFormat.CatDirective | commons/src/sds/sds.c:641-696 | the '%' case keeps: content so far and the denotation of the rest make the whole |
| SdsFormat.CatNext | commons/src/sds/sds.c:631-703 | a round of the loop, directive or plain byte, moves on in the format and keeps the same relation |
| SdsFormat.CatFmt | commons/src/sds/sds.c:616-709 | what is appended is what the format asks for over its arguments, by byte codes, through any growth in the middle; it is the denotation |
| SdsSplit.SplitIsUnique | commons/src/sds/sds.c:819-834 | at most one list of pieces joins to a text and has no early cut |
| SdsSplit.OccursByteByByte | commons/src/sds/sds.c:859 | a separator occurs where each of its bytes stands in the text |
| SdsSplit.TokensAvoidSeparator | commons/src/sds/sds.c:819-834 | no token contains the separator |
| SdsSplit.SplitOfJoin | commons/src/sds/sds.c:835-882 | splitting a join gives the list back if and only if no cut comes early, self-overlapping separators included |
| SdsSplit.DoubleSlots | commons/src/sds/sds.c:850-857 | the doubled token vector keeps its tokens |
| SdsSplit.SplitLen | commons/src/sds/sds.c:835-882 | the leftmost-cut pieces, which join back to the text; NULL exactly for an empty text or separator; the token vector never overflows |
| SdsSplit.JoinSds | commons/src/sds/sds.c:1120-1129 | a fresh string with the separated join, built within the amortised bound on bytes moved |
| SdsQuoting.HexDigit | commons/src/sds/sds.c:915 | a printed hex digit reads back as its value |
| SdsQuoting.EscapedIsShown | commons/src/sds/sds.c:901-917 | by byte codes and uniquely: 32..126 stand for themselves but 34 and 92, which get a backslash; 7, 8, 9, 10, 13 are backslash and a, b, t, n, r; any other byte is backslash, x and two digits 0-9a-f that denote it |
| SdsQuoting.ReprQuotes | commons/src/sds/sds.c:898-921 | a text is the quoted form if and only if it is a quote, those forms byte by byte, and a quote |
| SdsQuoting.CatEscaped | commons/src/sds/sds.c:901-917 | one byte is appended in its escaped form, which is the form stated by byte codes |
| SdsQuoting.CatEscapedAll | commons/src/sds/sds.c:900-919 | the loop appends the escaped forms in order |
| SdsQuoting.CatRepr | commons/src/sds/sds.c:898-921 | the quoted form is appended, byte by byte as stated by byte codes |
| SdsTokenizer.DoubleStep | commons/src/sds/sds.c:990-1024 | one round inside double quotes is one step of the scanner; cursor and lookahead stay within the terminator |
| SdsTokenizer.SingleStep | commons/src/sds/sds.c:1025-1039 | the same inside single quotes |
| SdsTokenizer.PlainStep | commons/src/sds/sds.c:1040-1060 | the same outside quotes |
| SdsTokenizer.NextToken | commons/src/sds/sds.c:982-1061 | the token loop ends, and yields the scanned token in a fresh string or fails as the scanner does |
| SdsTokenizer.SkipBlanks | commons/src/sds/sds.c:980-981 | the cursor skips exactly the leading white space |
| SdsTokenizer.SplitArgs | commons/src/sds/sds.c:973-1081 | tokens if and only if the grammar derives the line, with the values of any derivation; NULL when a quote is unbalanced or closed too early; it is the scanner's result |
| SdsGrammar.TablesAgree | commons/src/sds/sds.c:926-950 | the scanner's character tests, hex values and escapes are the tables of the grammar, which are given by byte codes |
| SdsGrammar.ScanLineOf | commons/src/sds/sds.c:954-972 | the scanner finds the values of every well-formed line, behind any blanks |
| SdsGrammar.LineTreeOf | commons/src/sds/sds.c:954-972 | every line the scanner accepts is the text of a well-formed tree with those values |
| SdsGrammar.AcceptsExactlyTheGrammar | commons/src/sds/sds.c:968-971 | tokens are returned if and only if the grammar derives the line, with the values of any derivation; blanks, word ends, hex digits and escapes of the grammar are byte codes |
| SdsWords.TokensAreWordsIff | commons/src/sds/sds.c:978-1061 | on lines without quotes the tokens are the words separated by bytes 32 and 9..13 if and only if no byte 11 or 12 directly follows a byte that is none of these |
| SdsWords.SoftSpaceStays | commons/src/sds/sds.c:1042-1048 | "a", vertical tab, "b" is one token and two words |
| SdsWords.JoinedWords | commons/src/sds/sds.c:978-1061 | plain words with the same white space between any two are the tokens of the line if and only if that white space starts with byte 32, 9, 10 or 13, or there are fewer than two words |
| SdsGrammar.ReprLineSpells | commons/src/sds/sds.c:892-897 | the printer's joined output is the text of a well-formed tree whose values are the strings |
| SdsGrammar.ReprIsPrintable | commons/src/sds/README.md:553-557 | quoted forms consist of bytes 32..126 only, whatever the bytes |
| SdsGrammar.QuotingRoundTrip | commons/src/sds/sds.c:965-966 | printing any byte strings, joining with single spaces and tokenizing returns the strings; the line holds no NUL |
| SdsRoundTrip.Quote | commons/src/sds/sds.c:898-921 | printing to a new string leaves the quoted form, as stated by byte codes |
| SdsRoundTrip.QuoteAndSplit | commons/src/sds/sds.c:965-966 | on the objects: the line is quoted forms joined with byte 32, and tokenizing it returns the strings |
| ByteSource.Source.Read | fixed_grep/fgrep.c:164-173 | a read delivers some nonempty prefix of the rest, 0 only at the end, or fails, consumes nothing and is counted |
| FixedGrep.GreedyCovers | fixed_grep/fgrep.c:98-117 | the greedy matches are disjoint and leave no match uncovered |
| FixedGrep.CoverIsGreedy | fixed_grep/fgrep.c:98-117 | no other list of disjoint matches does |
| FixedGrep.MatchIsOccurrence | fixed_grep/fgrep.c:56-59 | a match is a place where each byte of the pattern stands in the text |
| FixedGrep.GreedyFindsAll | fixed_grep/fgrep.c:98-117 | by position: the hits are occurrences, do not overlap, and every occurrence starts inside one |
| FixedGrep.OnlyGreedyFindsAll | fixed_grep/fgrep.c:98-117 | and no other list of positions is like that |
| FixedGrep.PrintedReports | fixed_grep/fgrep.c:107-108 | in what is printed, the i-th record of pattern length and one is the text at hit i and byte 10 |
| FixedGrep.HitsOfPrefix | fixed_grep/fgrep.c:146-176 | matches found so far are the greedy matches of the bytes delivered so far, once fewer than a pattern length remain unsearched |
| FixedGrep.DeliveredHits | fixed_grep/fgrep.c:161-176 | the same for the chunk in the buffer and the unread bytes |
| FixedGrep.PatternSearch | fixed_grep/fgrep.c:56-59 | the first match in the window, or none anywhere in it |
| FixedGrep.SearchNext | fixed_grep/fgrep.c:98-113 | one round of the whole-file loop: the next greedy match, or the matches found are all |
| FixedGrep.SearchMapped | fixed_grep/fgrep.c:95-117 | the loop over the whole file finds all occurrences, greedily from the left, and the output is the text at each of them with a newline behind it, and nothing else |
| FixedGrep.ReadAndSearchMmap | fixed_grep/fgrep.c:66-120 | the same, unless the pattern has 1024 bytes or more |
| FixedGrep.SearchChunk | fixed_grep/fgrep.c:147-160 | a search reports the next match or drops only bytes that start none; the output grows by the record of that match (`PrintedReports`) |
| FixedGrep.ReadChunk | fixed_grep/fgrep.c:161-175 | moving the tail and reading behind it keeps the buffer equal to the text at the tracked position |
| FixedGrep.SearchRead | fixed_grep/fgrep.c:139-177 | the loop ends with exactly the matches of the bytes delivered, which are all unless a read failed |
| FixedGrep.ReadAndSearch | fixed_grep/fgrep.c:123-177 | for every chunking the matches, their offsets and the output are those of the whole-file search: the output is the text at each match and a newline; it fails exactly when a read failed, and then reports exactly the matches of the bytes delivered; the buffer never overflows |
| ReadBuffer.NextPowerOfTwo | commons/src/readbuffer/src/readbuffer.c:24-42 | the least power of two that is large enough; failure exactly when none fits `size_t` |
| ReadBuffer.LargestPow2 | commons/src/readbuffer/src/readbuffer.c:33-38 | that happens exactly above 2^63 |
| ReadBuffer.Buffer.constructor | commons/src/readbuffer/src/readbuffer.c:44-62 | an empty buffer of the given capacity |
| ReadBuffer.Buffer.Assure | commons/src/readbuffer/src/readbuffer.c:74-125 | the unread bytes are unchanged; on success there is room, on failure nothing changed; overflow is reported exactly when no capacity exists, an allocation failure exactly when malloc failed |
| ReadBuffer.Buffer.Compact | commons/src/readbuffer/src/readbuffer.c:93-97 | the unread bytes are at the front and unchanged |
| ReadBuffer.Buffer.Grow | commons/src/readbuffer/src/readbuffer.c:99-124 | growth is to the least sufficient power of two; each failure has its cause |
| ReadBuffer.Buffer.CommitWrite | commons/src/readbuffer/src/readbuffer.c:156-170 | the bytes behind the view join it; too many are refused |
| ReadBuffer.Buffer.Consume | commons/src/readbuffer/src/readbuffer.c:172-191 | the first bytes leave the view, the storage is untouched, and an emptied buffer has its whole capacity to write to again; too many are refused |
| LineStream.LinesMakeTheText | commons/include/linestream.h:111-124 | the lines hold no byte 10 and make up the input, but for a missing final newline |
| LineStream.LinesOfTerminated | commons/include/linestream.h:111-124 | newline-free lines are the lines of their terminated text, so no extra empty line follows a final newline |
| LineStream.RunReturnsTheLines | commons/src/linestream/src/linestream.c:69-154 | in every run, with any failures, lines returned and lines still to come are the lines of the input; `LinesThenEof` is the progress that goes with it |
| LineStream.EofIsForEver | commons/src/linestream/src/linestream.c:125-139 | at the first end of file all lines have been returned, and only end of file or failures follow |
| LineStream.LinesThenEof | commons/src/linestream/src/linestream.c:69-154 | when no read and no allocation fails, the calls return the lines of the input one by one, then end of file for ever |
| LineStream.EachByteExaminedOnce | commons/src/linestream/src/linestream.c:53-59 | without failures the positions `memchr` has examined are those of the bytes returned, each once and in order; bytes after a returned line have not been examined |
| LineStream.ExaminedInOrder | commons/src/linestream/src/linestream.c:53-59 | on a fresh stream the i-th byte examined is byte i of the input |
| LineStream.LongestLineIs | commons/include/linestream.h:111-124 | the longest line is a line, and no line is longer |
| LineStream.CapacityIsBounded | commons/src/linestream/src/linestream.c:105-108 | the capacity never exceeds the initial one or twice the longest line and one read of 4 MiB |
| LineStream.Stream.MemChrNewline | commons/src/linestream/src/linestream.c:85-87 | the first newline, or none; the stream records the bytes examined: up to the newline, once each, none behind it |
| LineStream.Stream.constructor | commons/src/linestream/src/linestream.c:30-48 | the whole input is pending and nothing has been examined |
| LineStream.Stream.FindNewline | commons/src/linestream/src/linestream.c:82-103 | resuming at the scanned offset finds the first newline of the whole view and examines only bytes not examined before |
| LineStream.Stream.ScanRound | commons/src/linestream/src/linestream.c:84-103 | after a round each byte up to the newline, or of the whole view, has been examined once |
| LineStream.Stream.MakeRoom | commons/src/linestream/src/linestream.c:107-112 | room for a read; refused exactly for a failed allocation or a size no buffer has; the capacity bound of one growth |
| LineStream.Stream.ReadBehind | commons/src/linestream/src/linestream.c:116-147 | what a read delivers joins the view; a failed read changes nothing and is counted |
| LineStream.Stream.Refill | commons/src/linestream/src/linestream.c:105-147 | view and unread bytes together are unchanged, the view only grows, and each failure has its cause |
| LineStream.Stream.TakeLine | commons/src/linestream/src/linestream.c:88-98 | the line read through the saved cursor after the consumption is the line |
| LineStream.Stream.Yield | commons/src/linestream/src/linestream.c:88-98 | an examined line is the outcome of the call, read through the saved cursor |
| LineStream.Stream.ReturnLine | commons/src/linestream/src/linestream.c:88-98 | a found newline ends the call with the first pending line |
| LineStream.Stream.TakeRest | commons/src/linestream/src/linestream.c:131-136 | a nonempty newline-free rest is returned as the last line |
| LineStream.Stream.ReturnRest | commons/src/linestream/src/linestream.c:125-139 | at end of file the residue is the last line, otherwise end of file |
| LineStream.Stream.ReadOn | commons/src/linestream/src/linestream.c:105-153 | after a fully examined view: more bytes, the end, or a failure with its cause that leaves everything pending |
| LineStream.Stream.Next | commons/src/linestream/src/linestream.c:69-154 | one call is one abstract step on pending bytes, capacity, examined positions and failure counts; an error has a failed read, a failed allocation or an oversized line behind it |
| LineStream.Stream.Call | commons/src/linestream/src/linestream.c:69-154 | the same with the bytes of the line read off the buffer |
| LineStream.Stream.Calls | commons/include/linestream.h:111-124 | any number of calls on a stream object are a run, so the run theorems hold of the object |
| LineStream.Stream.CollectLines | commons/src/linestream/tests/test_linestream.c:21-32 | the loop of every caller ends with the lines of the input at end of file; otherwise a read or an allocation failed or a line fits no buffer, and the lines not yet taken are still pending |
| MessageRing.FullIsCapacity | tcp/polling/message_q.c:37-38 | start equals end exactly when the ring holds its capacity; the sentinel exactly when it is empty |
| MessageRing.EnqueueAppendsIff | tcp/polling/message_q.c:47-49 | enqueueing appends if and only if the ring holds messages or end is 0 |
| MessageRing.DequeueDropsFirst | tcp/polling/message_q.c:87-97 | dequeueing takes the oldest message and leaves the others, through any wraparound |
| MessageRing.StepIsFifo | tcp/polling/message_q.c:33-100 | one guarded operation does to the ring what it does to the queue |
| MessageRing.RunIsFifoIff | tcp/polling/message_q.c:33-100 | a run behaves as a bounded FIFO if and only if every enqueue meets that guard |
| MessageRing.GuardedRunHoldsMessages | tcp/polling/message_q.c:66-100 | from any ring without NULL live slots, a guarded run never has one, at any point |
| MessageRing.NeverNullIff | tcp/polling/message_q.c:66-100 | from a ring whose messages are exactly its live slots, as every fresh one, no live slot is NULL at any point of a run if and only if the enqueues of the run are guarded |
| MessageRing.EndCountsAccepted | tcp/polling/message_q.c:49 | end is the number of accepted messages modulo the capacity |
| MessageRing.ReuseAfterDrainBreaks | tcp/polling/message_q.c:48 | put, take, put on a ring of two leaves a NULL slot in front of the message |
| Broadcast.DrainContinues | tcp/polling/message_q.c:138-152 | a flush sends the log from the client's position, as far as writes succeed |
| Broadcast.DrainSendsArc | tcp/polling/message_q.c:138-152 | on any ring, NULL slots included, a flush whose writes succeed sends the messages from the offset round to end |
| Broadcast.NewClientGetsTheLive | tcp/polling/message_q.c:115-123 | the first flush of a client that registers while messages are queued sends exactly those, or nothing when the ring is full |
| Broadcast.FlushDelivers | tcp/polling/message_q.c:138-168 | no loss, repetition or reordering; success reaches the whole log if and only if the client is not stuck; failure keeps what was written; other clients are untouched |
| Broadcast.EnqueueKeeps | tcp/polling/message_q.c:33-52 | the ring holds the whole log, and is full exactly when the log has its capacity |
| Broadcast.UnregisterForgets | tcp/polling/message_q.c:125-136 | no client keeps the descriptor and every other client keeps its offset |
| Broadcast.NotSlowKeeps | tcp/polling/message_q.c:182-199 | the walk keeps exactly the clients that pass the lag test |
| Broadcast.DropsTheSlowAndTheDone | tcp/polling/message_q.c:170-199 | a client is dropped if and only if the ring is 80% full and it has received less than 40% of the capacity, or a full ring's whole capacity |
| Broadcast.StepKeeps | tcp/polling/message_q.c:115-196 | every protocol step, the drop of slow clients included, keeps the invariant |
| Broadcast.EveryRunDeliversInOrder | tcp/polling/message_q.c:115-168 | in every run, of any length, the log is the first messages offered, as many as the queue holds, and each client has received a prefix of it |
| Broadcast.LogIsOffered | tcp/polling/message_q.c:33-52 | computed from the events alone: whatever else happens, the log becomes the first messages of at most 512 bytes offered, in order, up to the capacity |
| Broadcast.RunDelivers | tcp/polling/message_q.c:154-168 | progress: in a run without failed writes, after each flush of a registered client it has the whole log if and only if it was not stuck |
| Broadcast.LastDelivery | tcp/polling/message_q.c:154-168 | a run without failed writes that ends with a delivery leaves its client, if registered, with the whole log, or with nothing when the log has filled the queue |
| Broadcast.StarvedForEver | tcp/polling/message_q.c:138-152 | from every world that keeps the invariant, with a full ring and a registered client that has received nothing, no run ever delivers anything to it; without its unregistration or a drop it stays registered in that state |
| Broadcast.SilentForEver | tcp/polling/message_q.c:138-152 | once the ring is full nothing is ever sent to a descriptor that has received nothing, whoever holds it later |
| Broadcast.FullQueueStarves | tcp/polling/message_q.c:138-152 | a concrete run into that state |
| MessageQueue.Queue.constructor | tcp/polling/message_q.c:8-30 | an empty ring without clients |
| MessageQueue.Queue.Q | tcp/polling/message_q.c:33-52 | the return code, in the source's order of checks, and the new ring state; an accepted message becomes the newest live one unless a drained ring ends elsewhere than at slot 0 |
| MessageQueue.Queue.GetLength | tcp/polling/message_q.c:54-63 | the number of live slots in all four cases |
| MessageQueue.Queue.Get | tcp/polling/message_q.c:66-80 | the indexed live message, or NULL out of bounds |
| MessageQueue.Queue.Dq | tcp/polling/message_q.c:83-100 | the oldest message and the rest, or NULL on an empty ring |
| MessageQueue.Queue.RegisterClient | tcp/polling/message_q.c:115-123 | the new client comes first, the others are unchanged, and its offset is the slot of the oldest live message |
| MessageQueue.Queue.FindClient | tcp/polling/message_q.c:161-166 | the list walk stops at the first client with the descriptor |
| MessageQueue.Queue.UnregisterClient | tcp/polling/message_q.c:125-136 | exactly that client is removed, or -1 |
| MessageQueue.Queue.UnlinkSlow | tcp/polling/message_q.c:182-199 | the list walk, which removes clients on its way, leaves exactly those that pass the lag test, in order |
| MessageQueue.Queue.DropSlowConsumers | tcp/polling/message_q.c:170-199 | the same behind the checks for an empty ring and for 80%; nobody else is dropped |
| MessageQueue.Queue.WriteSlot | tcp/polling/message_q.c:141-147 | one slot's message, if it holds one, is delivered and no other stream changes, or one write failed and nothing was delivered |
| MessageQueue.Queue.WriteFrom | tcp/polling/message_q.c:139-149 | the loop writes what `Drain` says and stops early exactly at one failed write |
| MessageQueue.Queue.FlushClientMessages | tcp/polling/message_q.c:138-152 | offset, stream and return code after a flush; it fails exactly when one write failed; other streams unchanged |
| MessageQueue.Queue.Flush | tcp/polling/message_q.c:154-168 | the flush step of the protocol; for a registered client the return code is 0 exactly when no write failed |
| MessageQueue.Sockets.Write | tcp/polling/message_q.c:142-146 | a whole message is delivered, or the write fails, delivers nothing and is counted |
| MessageQueue.Queue.Accept | tcp/polling/poll_server_impl.c:103-112 | accepting a connection and registering it is the register step, and writes nothing |
| MessageQueue.Queue.Receive | tcp/polling/poll_server_impl.c:57-69 | a client's message: -40 if and only if the queue was full, when the slow clients are dropped and the second attempt fails too; -41 for more than 512 bytes; otherwise 0 and it is the newest live message |
| MessageQueue.Queue.Serve | tcp/polling/poll_server_impl.c:167-186 | each request on the objects is one step of the protocol, and exactly one write failed if it is a flush that ends early, otherwise none; `Post` is the enqueue alone, without the drop of slow clients that follows in the loop when the queue is full: `Drop` is that, and `Receive` is both |
| MessageQueue.Queue.ServeEach | tcp/polling/poll_server_impl.c:158-188 | request by request the objects follow the protocol, with one failed write for each flush that fails |
| MessageQueue.Queue.ServeAll | tcp/polling/poll_server_impl.c:158-188 | any sequence of requests on the objects is a run of the protocol; if every accepted descriptor is new (and, when nobody is dropped, only then) the run is legal, ends in the invariant, and each client has received a prefix of the messages posted, as many as the queue holds; if no write failed, each delivery left its client with the whole log unless it was stuck, and the last one with all messages posted |
| MessageQueue.LegalIffNewJoins | tcp/polling/poll_server_impl.c:103-112 | without drops a run is legal if and only if no descriptor is accepted while it is registered |
| MessageQueue.NewJoinsAreLegal | tcp/polling/poll_server_impl.c:103-112 | with drops too, a run that accepts only descriptors that are not open is legal and keeps the invariant |
| MessageQueue.DroppedMayRejoin | tcp/polling/message_q.c:189-195 | with drops that condition is not necessary: a starved client is dropped without its descriptor being closed, and registering the descriptor again is legal |
| MessageQueue.Queue.Operate | tcp/polling/message_q.c:33-100 | one guarded enqueue or dequeue on the object, and what it returns |
| MessageQueue.Queue.OperateAll | tcp/polling/message_q.c:33-100 | any guarded sequence of enqueues and dequeues on the object returns what a bounded FIFO returns |

## Left out

- Allocation failure in SDS and the message queue, freeing, and the raw layout of headers in front of the string pointer: a class has its fields instead.
- Stale `sds` pointers and arguments that alias the destination string (`memcpy` from the string being grown): arguments are byte values.
- Sizes near 2^64, where `sdsMakeRoomFor` would overflow `size_t`: `Sizeable` excludes them.
- SdsString.Sds.IncrLen: a change of length on a type 5 string whose terminator would be written outside the allocation, which the assertion does not rule out, is excluded, because C gives it no meaning.
- Vectors of tokens hold byte strings, not `sds` pointers, so sharing between tokens is not expressed; `int` token counts do not overflow.
- `sdscatvprintf` in general: only the uses made by `sdscatrepr`, whose output is a single byte or an escape.
- FixedGrep.ReadAndSearch: an empty pattern is excluded, because neither search loop advances on one.
- `stream_line_and_search`, `cat.c`, `tail.c` and the servers around the queue: line-by-line output and system-call plumbing.
- Short socket writes: the source ignores the count that `write` returns, so a write delivers a whole message or fails.
- MessageQueue.Queue.Get: a NULL slot inside the live range, which the source would dereference, is excluded by its precondition, because C gives it no meaning; `NeverNullIff` says exactly which runs reach one.
- MessageQueue.Queue.Dq: a NULL slot at `start`, for the same reason.
- MessageQueue.Queue.Accept: a failed accept, which the source registers as descriptor -1, and a failed watch have no counterpart of their own.
- MessageQueue.Queue.Serve: `Post` on a full queue drops nobody, unlike the cited loop; that loop's treatment of a message is `Receive`.
- `capacity * 0.4` in the lag test is the integer part of 4/10 of the capacity; the rounding of `double` above 2^50 slots is not expressed.
- NULL arguments of the queue, buffer and stream functions, which return an error at once.
- `message_queue__free`, and the linked list behind the clients, which is a sequence here.
- The broadcast runs hold no dequeue, as in the server that uses the queue; dequeues are covered by the FIFO runs.
- `sdsrange`, `sdstolower`, `sdstoupper`, `sdsmapchars`, `sdscmp`, `sdsdup`, `fds_state.c`: they would only add easy members.
