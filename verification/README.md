# Verified model of the server's codecs, parsers, id allocation, shop draw and schema differ

The project models six hand-written components of the game server and proves what each of them is for.

- **Streaming MD5** (`trunk/common/md5.cpp`). `Rfc1321.dfy` defines the digest of a whole message as RFC 1321
  does (sections 3.1 to 3.5), with the rounds as one indexed loop and the auxiliary functions as truth tables;
  `SineTable.dfy` computes its 64 constants from the sine of 1.
  `Md5.dfy` is the implementation: a context with a carry-over buffer, a two-word bit counter with manual carry, the
  unrolled 64 steps, and padding done by `Update` on itself. Every run of `Update` and `Finalize` calls reports
  the RFC digest of the bytes fed before the first `Finalize`.
- **Packet framer** (`trunk/network/message.cpp`). `Framing.dfy` says what a byte stream means: its packets, the
  packet left incomplete, and whether it is rejected. `MessageParser.dfy` is the resumable parser, with the header
  assembled in place and shared body buffers, following `message.cpp` and the declarations in
  `trunk/network/message.hpp`. One call is proved to read pending bytes plus chunk, for all inputs, and
  from that follow chunking invariance and the round trip with the sender's framing.
- **HTTP request parser** (`trunk/common/http_request_parser.cpp`, `.hpp`). `Http.dfy` is the 23-state transition
  function, `HttpGrammar.dfy` an unambiguous grammar with a printer, `HttpProperties.dfy` the properties of runs,
  `HttpRequestParser.dfy` the parser and request objects, `HttpPlain.dfy` the same in plain characters, for requests
  that are written out.
- **Ids** (`trunk/common/global_id.cpp`). `GlobalId.dfy` covers the allocator and its 61-bit ids, `UserId.dfy` the
  42-bit user ids and the decimal display ids.
- **Weighted shop draw** (`trunk/tblh/RandomShopConfig.cpp`) in `RandomShop.dfy`.
- **Schema differ** (`trunk/sql/database.py`, `compare`). `ColumnText.dfy` is the text of column definitions and the form
  in which they are compared, `SchemaDiff.dfy` the differ and the database that carries out its commands.

`Bits.dfy`, `LittleEndian.dfy`, `Decimal.dfy` and `Common.dfy` hold what they share. Unsigned machine words are bounded
naturals, their wrap-around is written out, and `&`, `|`, `^`, `<<`, `>>` are defined digit by digit, so that masks and shifts are
proved to be the arithmetic they are used for. Clock, random source, command table, zlib's `uncompress`,
`boost::lexical_cast` and the line in which the database dumps a column are parameters.

`dafny verify dfyconfig.toml` checks the whole project.

## What the proofs found

- `update` adds the block size to its index on 32 bits. The block loop stops where it should exactly when the chunk is
  shorter than `2^32 - 64 + (64 - index) % 64` bytes, `index` being the number of buffered bytes; on longer
  ones it transforms bytes past the end of the chunk (`LoopInBoundsIff`).
- The framer counts the bytes of a packet on 32 bits and only logs an oversized length. A packet is read the same under
  every chunking exactly when header and body together take at most 2^32 bytes (`RobustIff`, and for lists of
  uncompressed messages `StreamRobustIff`); beyond that
  a call that ends when the count has wrapped makes the parser take body bytes for a header.
- When a call to `parse` fails, the socket (`trunk/network/tcp_socket.cpp`, lines 54-66) drops the packets that the
  same call had completed. What reaches the handlers is the same under every chunking exactly when the stream does not
  fail or fails before its first packet (`DispatchRobustIff`). A stream that fails after at least one packet can be
  handled in part or not at all (`DispatchDependsOnChunking` is an instance), although what is parsed does not change.
- The comment above the HTTP `parse` says that false means failure. The code returns false for every byte of the head
  but the last (`Timeline`), and discards the verdict of `consume`, so a rejected byte is silently skipped
  (`FeedSkipsRejected`). Any input is answered with true exactly when its bytes that are not rejected are a whole request,
  with nothing behind it but a line feed or NUL and what follows that (`ReportTrueIff`). Junk before a request is thus
  accepted (`BadStartIsSkipped`), and a head without a usable Content-Length is never answered with anything but false,
  whatever comes after it (`NoLengthNoAnswer`). The code is modelled.
- The HTTP parser removes a folded line break together with its blanks and puts no space in their place
  (`FoldingIsConcatenation`); RFC 7230 section 3.2.4 asks for a space.
- `id_allocator_t::init` overwrites group and index before it checks them and keeps `m_is_init` from an earlier success
  (`Init`). Runs are therefore stated for one successful call.
- Ids of one type are distinct within a second exactly up to 32767 of them (`BurstIff`), and in general collide exactly
  when type and second modulo 2^27 agree and the number of ids drawn between them is a multiple of 32767 (`CollideIff`).
- With the numbers 1 to total equally likely, the shop draw is fair exactly when the total weight is below 2^31
  (`FairIff`). `rand_r` has only 2^31 values, so the numbers are equally likely exactly when the total divides 2^31
  (`UniformIff`); otherwise a unit of weight counts for 2^31 / total of them rounded down or up (`WinsBounds`).
- The differ's commands go through exactly when the target has no table without columns, and lead to the target exactly
  when every text sent comes back from the database with the normal form it was sent for (`Converge`).
- The differ's normal form cannot be taken twice: without COMMENT, `find` yields -1 and the last character is cut off, so
  every pass shortens the text (`NormalShrinks`). Its commas are removed too, so definitions that differ in commas only are
  not told apart (`SameNormalIff`).
- ADD and MODIFY send the definition of the file exactly when there is no comma in it (`AddSendsIff`, `NormalOfLine`). For a
  file of definition lines and a database that prints the definitions it is given, a column ends with the definition
  of the file exactly when its table is created, or it is left alone and had that definition already, or it is sent and has no
  comma (`ArrivesIff`, for all columns `IdenticalIff`); a later diff is silent in every case (`FileSettles`). The file has such
  a column: the `decimal(13,2)` of `trunk/sql/sg_log.sql`, line 438, goes out as `decimal(132)` (`DecimalDoesNotArrive`).

## Model

| member | source | states |
|---|---|---|
| Md5.BasicFunctionsAreRfc | trunk/common/md5.cpp:27-41 | F, G, H and I compute, in every one of the 32 bit positions, the truth tables RFC 1321 describes in words |
| Md5.RotateLeftIsRfc | trunk/common/md5.cpp:44-46 | shifting left on 32 bits or-ed with shifting right is the circular shift, for every word and every amount 1..31 |
| Md5.FF | trunk/common/md5.cpp:50-52 | one step of round 1, sums on 32 bits, is the RFC operation with the first auxiliary function |
| Md5.GG | trunk/common/md5.cpp:54-56 | the same for round 2 |
| Md5.HH | trunk/common/md5.cpp:58-60 | the same for round 3 |
| Md5.II | trunk/common/md5.cpp:62-64 | the same for round 4 |
| Md5.Round1 | trunk/common/md5.cpp:136-152 | the sixteen unrolled steps with rotated register arguments equal the indexed loop with message index i |
| Md5.Round2 | trunk/common/md5.cpp:154-170 | the same with message index 5i+1 mod 16 and the shifts and constants of round 2 |
| Md5.Round3 | trunk/common/md5.cpp:172-188 | the same with message index 3i+5 mod 16 and the shifts and constants of round 3 |
| Md5.Round4 | trunk/common/md5.cpp:190-206 | the same with message index 7i mod 16 and the shifts and constants of round 4 |
| Md5.Context.Transform | trunk/common/md5.cpp:131-215 | on every state and block, the new state is the RFC compression of the old one |
| Md5.Decode | trunk/common/md5.cpp:107-112 | the words written are the little-endian words of the input |
| Md5.Encode | trunk/common/md5.cpp:118-126 | the bytes written are the little-endian bytes of the words |
| LittleEndian.WordsOfBytes | trunk/common/md5.cpp:107-126 | decode undoes encode |
| Md5.CounterStep | trunk/common/md5.cpp:223-229 | the manual carry keeps the two words equal to 8 times the byte count modulo 2^64, and the low word alone gives the byte count modulo 64 |
| Md5.LoopInBoundsIff | trunk/common/md5.cpp:237-245 | for every index and every chunk that fills the buffer, no turn of the block loop transforms bytes past the end of the chunk if and only if the chunk is shorter than 2^32 - 64 + (64 - index) % 64 |
| Md5.LoopStopsIff | trunk/common/md5.cpp:244-245 | at the position where no whole block is left, the 32-bit loop guard is false if and only if the chunk is shorter than 2^32 - 64 + (64 - index) % 64 |
| Md5.Context.constructor | trunk/common/md5.cpp:69-102 | a fresh context satisfies the invariant with nothing absorbed |
| Md5.Context.FromText | trunk/common/md5.cpp:77-82 | the shortcut constructor yields the RFC digest of the text, whose length is truncated to 32 bits on the way |
| Md5.Context.CountBits | trunk/common/md5.cpp:223-229 | the counter update of one chunk, in place |
| Md5.Context.AbsorbBlocks | trunk/common/md5.cpp:237-248 | the state is the fold of the compression over all whole blocks of everything absorbed, and the rest of the chunk is the tail of the message |
| Md5.Context.Update | trunk/common/md5.cpp:221-254 | for every chunk, the invariant holds for the old message followed by the chunk: counter, buffered tail and state |
| Md5.Context.AbsorbPadding | trunk/common/md5.cpp:277-287 | the two self-applied updates absorb exactly the RFC padding and the 64-bit length taken before padding |
| Md5.Context.Finalize | trunk/common/md5.cpp:268-300 | the digest is the RFC digest of everything absorbed, buffer and counter are cleared, and a second call changes nothing |
| Md5.Context.HexDigest | trunk/common/md5.cpp:305-316 | the empty string before Finalize; after it 32 characters of 0-9 and a-f, of which each pair has the value of one digest byte, the high digit first |
| Rfc1321.PadBlocks | trunk/common/md5.cpp:281-287 | padding and length fill one or two further blocks and leave no tail |
| Rfc1321.PadInjective | trunk/common/md5.cpp:281-287 | below 2^61 bytes, messages with equal padded forms are equal |
| Rfc1321.ChainAppend | trunk/common/md5.cpp:237-248 | absorbing two parts in turn is absorbing their concatenation, when the first ends on a block boundary |
| Rfc1321.OutputInjective | trunk/common/md5.cpp:289-290 | the digest bytes determine the final state |
| Rfc1321.PadLayout | trunk/common/md5.cpp:277-287 | the padded form is the message, a byte 128, zeros, and the bit count modulo 2^64 in eight bytes, low-order byte first |
| Rfc1321.OutputLayout | trunk/common/md5.cpp:118-126 | the sixteen bytes put out are the four state words in order, low-order byte first |
| Rfc1321.InitialLayout | trunk/common/md5.cpp:96-99 | the initial state, put out as bytes, counts up from 01 by 22 and down again from fe |
| Rfc1321.IndexCovers | trunk/common/md5.cpp:136-206 | each round reads every one of the sixteen words |
| SineTable.TableIsSines | trunk/common/md5.cpp:136-206 | the 64 constants are the integer parts of 2^32 times the absolute sines of 1 to 64, computed to 18 digits by the addition theorem |
| Md5.HexSpells | trunk/common/md5.cpp:310-315 | in the hexadecimal text of any bytes, two digits stand for each byte, the high one first |
| Md5.HexInjective | trunk/common/md5.cpp:310-315 | the hexadecimal text determines the digest bytes |
| Md5.Drive | trunk/common/md5.cpp:86-316 | for every sequence of update and finalize calls on a fresh context in which each chunk is within the exact bound of its call, the reported text writes out the RFC digest of the bytes fed before the first finalize, digit by digit, or is empty without one |
| Md5.SettledAfterFinish | trunk/common/md5.cpp:276-299 | no calls after a finalize change what a run reports |
| Md5.ChunkingAbsorbsAll | trunk/common/md5.cpp:221-300 | feeding a message in any chunking absorbs exactly the message, so any two chunkings report the same digest |
| Framing.HeadRoundTrip | trunk/network/command.hpp:6-27 | reading the packed 12-byte header gives back the five fields that were written |
| Framing.HeadLayout | trunk/network/command.hpp:6-27 | whether written or read, len lies in bytes 0-3, cmd in 4-5, cmd_ex in 6-7, flags in 8-9 and unused in 10-11, each low-order byte first |
| Framing.FrameReads | trunk/network/message.cpp:56-84 | with bit 7 of flags clear a frame is delivered as it stands; with it set the body is what it inflates to, at most 409600 bytes, and of the header only len changes, to the inflated size; otherwise the stream fails there |
| Framing.LenIsSize | trunk/network/message.cpp:56-84 | in every packet read from any stream, len is the number of body bytes |
| Framing.FramesThen | trunk/network/message.cpp:16-88 | frames at the front of a stream are delivered whatever follows them |
| Framing.HeadStops | trunk/network/message.cpp:25-31 | a header with an unknown command stops the stream |
| Framing.FrameWaits | trunk/network/message.cpp:16-88 | a proper part of a frame delivers nothing and is kept whole |
| Framing.DeframeAppend | trunk/network/message.cpp:16-88 | a stream cut in two reads as its first part followed by the leftover and the second part, unless the first part already fails |
| Framing.ChunkingInvariance | trunk/network/message.cpp:9-113 | for every stream within the size limit and every split into calls up to the first failure, packets, pending bytes and failure are those of the whole stream |
| Framing.RobustIff | trunk/network/message.cpp:103-113 | a packet reads the same under all chunkings if and only if header and body take at most 2^32 bytes |
| Framing.StreamRobustIff | trunk/network/message.cpp:9-113 | a list of uncompressed messages with known commands arrives alike under all chunkings if and only if each of them takes at most 2^32 bytes |
| Framing.IncompleteRobustIff | trunk/network/message.cpp:91-113 | an incomplete packet stays pending under all chunkings if and only if fewer than 2^32 of its bytes are there |
| Framing.WrapLosesPacket | trunk/network/message.cpp:91-113 | beyond the limit there is a split into calls that delivers nothing at all |
| MessageParsing.CountWraps | trunk/network/message.cpp:91-113 | the 32-bit comparisons still tell a complete body from an incomplete one, and the header is forgotten exactly from a count of 2^32 on |
| Framing.FramesRoundTrip | trunk/network/message.cpp:16-88 | parsing concatenated frames, empty bodies included, returns exactly those frames and leaves nothing pending |
| Framing.FramesArrive | trunk/network/message.cpp:16-88 | frames, plain or compressed, arrive under any chunking as the packets they stand for |
| Framing.MessagesArrive | trunk/network/message.cpp:16-88 | uncompressed messages with known commands arrive exactly as sent, under any chunking |
| Framing.DispatchedAndDropped | trunk/network/message.cpp:25-88 | with a socket that drops the packet list when parse returns -1, what is handed to the message handler, followed by what the failing call had completed, is everything the stream contains |
| Framing.DispatchRobustIff | trunk/network/message.cpp:25-88 | what is handed on is all the stream contains under every chunking if and only if the stream does not fail or fails before its first packet |
| Framing.DispatchDependsOnChunking | trunk/network/message.cpp:25-88 | a good message before a bad header is handled when they come in two chunks and lost when they come in one |
| MessageParsing.MessageParser.ReadHead | trunk/network/message.cpp:91-101 | as many header bytes as are missing and available are copied behind the ones already there |
| MessageParsing.MessageParser.ReadBody | trunk/network/message.cpp:103-113 | every copy stays inside the body buffer and extends the bytes already there; the count moves on 32 bits |
| MessageParsing.MessageParser.TakeHead | trunk/network/message.cpp:18-44 | a completed header is rejected as the stream meaning rejects it, or gets a fresh body buffer of the announced size |
| MessageParsing.MessageParser.Complete | trunk/network/message.cpp:58-84 | a complete body is delivered as it is or inflated, by bit 7 of flags, with len rewritten to the inflated size and no other header field changed; a failed inflation or one above 409600 bytes delivers nothing |
| MessageParsing.MessageParser.TakeBody | trunk/network/message.cpp:52-85 | filling the body either delivers the packet at the front of the stream, rejects it, or leaves it pending |
| MessageParsing.MessageParser.Advance | trunk/network/message.cpp:16-86 | each iteration consumes at least one byte and agrees with the meaning of the stream |
| MessageParsing.MessageParser.Parse | trunk/network/message.cpp:9-89 | for every chunk: packets appended, pending bytes, failure and return value are those of pending bytes plus chunk; a non-negative result is the number of packets appended, each with a len equal to the size of its body; earlier messages keep identity and contents |
| MessageParsing.ReceiveFrom | trunk/network/message.cpp:9-89 | successive calls on one parser, from any state, append exactly the packets the fed chunks complete and leave the pending bytes of the last one |
| MessageParsing.Serve | trunk/network/message.cpp:56-88 | over a whole connection the messages handed on, whose buffers are shared and not copied, still have the contents of their packets when the last chunk has been parsed |
| MessageParsing.Receive | trunk/network/message.cpp:9-89 | a parser driven over any chunking of a stream ends with exactly the packets, pending bytes and failure of the stream |
| Http.RunAppend | trunk/common/http_request_parser.cpp:19-338 | running over two texts in turn is running over their concatenation, up to the first false verdict |
| HttpGrammar.SentenceAccepted | trunk/common/http_request_parser.cpp:19-312 | every sentence with a usable Content-Length followed by at most that much content runs to the content state and builds the request it describes |
| HttpGrammar.AcceptedIsSentence | trunk/common/http_request_parser.cpp:19-312 | whatever runs to the content state without a false verdict decomposes into such a sentence and content |
| HttpGrammar.AcceptedIff | trunk/common/http_request_parser.cpp:19-312 | both directions: the content state is reached exactly on those sentences, with exactly that request |
| HttpGrammar.SameHead | trunk/common/http_request_parser.cpp:19-306 | the decomposition is unique and no sentence continues another |
| HttpProperties.StepKeepsInv | trunk/common/http_request_parser.cpp:19-338 | content never exceeds the declared length, which is below 1024 and positive exactly in the two content states; header states have a header; a false verdict changes nothing; true is answered exactly in the last state |
| HttpProperties.FeedKeepsInv | trunk/common/http_request_parser.cpp:19-338 | so in every state reached by feeding any characters at all, rejected or not |
| HttpProperties.RequestRoundTrip | trunk/common/http_request_parser.cpp:19-322 | printing any well-formed request and parsing the text rebuilds exactly that request |
| HttpProperties.RequestCloses | trunk/common/http_request_parser.cpp:307-334 | after the content exactly a line feed or a NUL is taken, and the next byte is answered with true |
| HttpProperties.FoldingIsConcatenation | trunk/common/http_request_parser.cpp:189-280 | a value broken by any number of folds means the concatenation of its pieces |
| HttpProperties.FoldedParsesAlike | trunk/common/http_request_parser.cpp:189-280 | a request with folded headers parses to the same configuration as the unfolded one |
| HttpProperties.Timeline | trunk/common/http_request_parser.hpp:25-46 | byte by byte over any well-formed request, folded headers included, parse reports false before the head is complete, then indeterminate, and true first on exactly the byte that completes the declared length |
| HttpProperties.FeedSkipsRejected | trunk/common/http_request_parser.hpp:25-46 | with the verdict discarded, any input leads where its characters that are not rejected lead on their own, and none is rejected exactly when the run has no false verdict |
| HttpProperties.FedIff | trunk/common/http_request_parser.hpp:25-46 | any input, rejected characters or not, reaches the content state exactly when the characters that are not rejected are a sentence and content |
| HttpProperties.ReportTrueIff | trunk/common/http_request_parser.hpp:25-46 | the exact condition, on arbitrary input, for the answer true, and the request it is given for |
| HttpProperties.BadStartIsSkipped | trunk/common/http_request_parser.hpp:25-46 | every whole request behind characters that cannot start one is answered with true, although consume rejects the text |
| HttpProperties.NoLengthNoAnswer | trunk/common/http_request_parser.cpp:281-302 | after a head without a usable Content-Length the parser stays where it is and answers false, whatever is fed to it |
| HttpPlain.CharacterClasses | trunk/common/http_request_parser.cpp:340-367 | the characters of tokens one by one, control characters and blanks by their codes |
| HttpPlain.WordsMean | trunk/common/http_request_parser.cpp:24-280 | which characters methods, targets, header values and blanks of a sentence consist of |
| HttpPlain.NamesLengthIff | trunk/common/http_request_parser.cpp:369-381 | a name is taken for Content-Length exactly in the mixes of upper and lower case of its letters |
| HttpPlain.FirstLengthMeans | trunk/common/http_request_parser.cpp:383-404 | the declared length is the value of the first such header that can be read, and there is none exactly when none can |
| HttpPlain.PlainRequestAccepted | trunk/common/http_request_parser.cpp:19-312 | a request written out, with any method, target, case of Content-Length and content of 1 to 1023 bytes, is taken exactly as it stands |
| HttpPlain.PlainRequestRefused | trunk/common/http_request_parser.cpp:281-302 | with a length of 0, of 1024 or more, or one that cannot be read, the same head is never answered with anything but false |
| HttpPlain.FoldedRequestAccepted | trunk/common/http_request_parser.cpp:189-280 | a request written out with a folded header is taken with the two pieces of the value put together |
| HttpParsing.HttpRequestParser.constructor | trunk/common/http_request_parser.cpp:8-11 | a new parser waits for a method and has no declared length |
| HttpParsing.HttpRequestParser.Reset | trunk/common/http_request_parser.cpp:13-17 | declared length and state are those of a new parser |
| HttpParsing.HttpRequest.Reset | trunk/common/http_request.hpp:25-33 | all fields of the request are cleared |
| HttpParsing.HttpRequestParser.ParseContentLength | trunk/common/http_request_parser.cpp:383-404 | the loop finds the first Content-Length header, by name without case, whose value can be read |
| HttpParsing.HttpRequestParser.Consume | trunk/common/http_request_parser.cpp:19-338 | parser, request and verdict after one character are those of the transition function |
| HttpParsing.HttpRequestParser.Parse | trunk/common/http_request_parser.hpp:25-46 | at most one character is consumed, the verdict of consume is discarded, and the result is read off the lengths |
| HttpParsing.ReadRequest | trunk/common/http_request_parser.hpp:25-46 | a caller that repeats parse until it returns true, on any well-formed request followed by anything, stops right after the content with exactly the request described |
| HttpParsing.ParseAll | trunk/common/http_request_parser.hpp:25-46 | a caller that hands any data to parse to its end has the request and the answer that feeding all characters gives |
| GlobalId.IdAllocator.Init | trunk/common/global_id.cpp:20-73 | the exact success condition, with its bounds as numbers, and the whole new state on success and on failure |
| GlobalId.IdAllocator.GenNewId | trunk/common/global_id.cpp:128-173 | for types below 30 on an initialised allocator the sequence number moves on modulo 32767 and the id is the sum of the fields at bits 56, 45, 42, 15 and 0; in every other case the id is 0 |
| GlobalId.OrsArePack | trunk/common/global_id.cpp:166-170 | masking, shifting and or-ing lays the five fields side by side without overlap |
| GlobalId.UnpackPack | trunk/common/global_id.cpp:174-193 | the getters give back all five fields |
| GlobalId.IdMeaning | trunk/common/global_id.cpp:128-193 | zero is returned exactly when nothing was issued; every other id reads back as type, server, elapsed seconds and sequence number |
| GlobalId.IdAt | trunk/common/global_id.cpp:128-173 | the id of the i-th call of any run, with the sequence number as the count of ids drawn modulo 32767 |
| GlobalId.CollideIff | trunk/common/global_id.cpp:154-170 | two calls of a run return the same id if and only if type and second modulo 2^27 agree and the ids drawn between them are a multiple of 32767 |
| GlobalId.IdsAreUnique | trunk/common/global_id.cpp:128-173 | with a non-decreasing clock, under 2^27 seconds elapsed and at most 32767 ids a second, all ids of a run are distinct |
| GlobalId.BurstIff | trunk/common/global_id.cpp:154-158 | n ids of one type in one second are distinct if and only if n is at most 32767 |
| GlobalId.ServersNeverCollide | trunk/common/global_id.cpp:166-170 | ids of servers with different group or index never meet, under any clocks and counters |
| GlobalId.Generate | trunk/common/global_id.cpp:128-173 | successive calls on one allocator return exactly the ids of the run |
| GlobalId.InitAndGenerate | trunk/common/global_id.cpp:20-173 | a new allocator, one init, any calls: nothing is issued unless init succeeds, every id tells type, server and second of its call, and in an orderly run all ids are distinct |
| UserId.UidLayout | trunk/common/global_id.cpp:196-228 | within range a user id is the sum of its fields at bits 40, 32, 21, 18 and 0, and the getters give them back |
| UserId.DidMeans | trunk/common/global_id.cpp:231-245 | the display id is the printed number made of group and account |
| UserId.UidRoundTripIff | trunk/common/global_id.cpp:196-228 | the getters give back the five arguments if and only if each fits its field |
| UserId.PackOfFields | trunk/common/global_id.cpp:206-228 | every 42-bit number is the user id of its own fields |
| UserId.DidRoundTrip | trunk/common/global_id.cpp:231-262 | displaying a 42-bit user id and parsing it back with its platform and channel clears the role index and nothing else |
| UserId.DidNumeralRoundTrip | trunk/common/global_id.cpp:231-262 | every canonical numeral below 2^29 is the display id of what it parses to |
| Decimal.PrintRoundTrip | trunk/common/global_id.cpp:242-242 | reading a printed number gives the number back |
| Decimal.CanonicalRoundTrip | trunk/common/global_id.cpp:255-255 | printing the value of a canonical numeral gives the numeral back |
| Decimal.PrintMeans | trunk/common/global_id.cpp:242-242 | the digits by their characters, and printing digit by digit in base ten |
| Decimal.ReadMeans | trunk/common/global_id.cpp:255-255 | reading one more digit gives ten times the number plus the digit |
| RandomShop.RandomShopConfig.AddPoolItem | trunk/tblh/RandomShopConfig.cpp:21-27 | the item is appended to its own pool and no other pool changes; a null item changes nothing |
| RandomShop.EntriesMean | trunk/tblh/RandomShopConfig.cpp:40-56 | an item is considered as often as the pools at all listed positions hold it, if the level lies in its range and its proportion is positive, and not at all otherwise |
| RandomShop.EntriesAppend | trunk/tblh/RandomShopConfig.cpp:40-56 | the listed pools are gone through in order |
| RandomShop.EligibleInOrder | trunk/tblh/RandomShopConfig.cpp:44-56 | a pool is gone through in order, item by item |
| RandomShop.RandomShopConfig.BuildRates | trunk/tblh/RandomShopConfig.cpp:37-56 | the nested loops build the prefix sums, on 32 bits, of the eligible entries of the listed pools |
| RandomShop.RandomShopConfig.GetRandomItem | trunk/tblh/RandomShopConfig.cpp:29-81 | the returned id for every table, level, pool list and random number; with a sum of open proportions in 1..2^31-1 it is that of an item of a listed pool with a matching level and a positive proportion, with a sum of 0 it is 0 |
| RandomShop.ScanIsUrn | trunk/tblh/RandomShopConfig.cpp:71-80 | below 2^31 the scan returns the ball at the drawn position of an urn with one ball per unit of proportion, so it never falls through |
| RandomShop.UrnCount | trunk/tblh/RandomShopConfig.cpp:48-53 | the urn holds each id as often as the sum of its proportions |
| RandomShop.FairIff | trunk/tblh/RandomShopConfig.cpp:37-80 | over all draws each id is returned exactly as often as its weight if and only if the total is below 2^31 |
| RandomShop.OutcomeIsDraw | trunk/tblh/RandomShopConfig.cpp:64-77 | a call returns the id at a position in 1..total of the urn, which is an id of positive weight |
| RandomShop.RandBetweenRange | trunk/tblh/RandomShopConfig.cpp:64-69 | a draw from a non-empty range lies in the range |
| RandomShop.HitsBounds | trunk/tblh/RandomShopConfig.cpp:64-69 | each of the n numbers of a range is drawn for 2^31 / n of the 2^31 values of the random source, rounded down or up; the code's doubles round for n above 2^22 |
| RandomShop.OntoIff | trunk/tblh/RandomShopConfig.cpp:64-69 | every number of a range can be drawn if and only if there are at most 2^31 of them; the code's doubles round for ranges above 2^22 |
| RandomShop.UniformIff | trunk/tblh/RandomShopConfig.cpp:64-69 | all numbers of a range are drawn equally often if and only if their number divides 2^31 |
| RandomShop.WinsBounds | trunk/tblh/RandomShopConfig.cpp:29-81 | an id is returned for its weight times 2^31 / total of the values of the random source, up to rounding per unit of weight, and exactly when the total divides 2^31; the code's doubles round for totals above 2^22 |
| RandomShop.SumsMean | trunk/tblh/RandomShopConfig.cpp:40-56 | total and weights are the sums of the open proportions over the items of the pools at all listed positions |
| RandomShop.DrawTold | trunk/tblh/RandomShopConfig.cpp:29-81 | over all values of the random source an id wins for its share of these sums; the code's doubles round for totals above 2^22 |
| RandomShop.EligibleInMeans | trunk/tblh/RandomShopConfig.cpp:46-53 | the entries of a pool are its items of matching level and positive proportion, with their multiplicity |
| SchemaDiff.MergeTable | trunk/sql/database.py:172-199 | in any column order, the ADD and MODIFY commands run through and leave, for every target column that is missing or differs, what the database makes of the text sent; none is emitted exactly when all columns already agree |
| SchemaDiff.StripTable | trunk/sql/database.py:207-215 | in any column order, the DROP COLUMN commands remove exactly the columns the target lacks, and run through if the target table has a column |
| SchemaDiff.FirstLoop | trunk/sql/database.py:167-199 | the first pass creates and merges all target tables, in any order |
| SchemaDiff.SecondLoop | trunk/sql/database.py:201-215 | the second pass drops and strips all current tables, in any order |
| SchemaDiff.Compare | trunk/sql/database.py:162-215 | the list holds, each once, exactly a CREATE for every missing table, an ADD with the line less its commas for every missing column of a table on both sides, a MODIFY with the normal form where normal forms differ, and a DROP for every surplus table and column; the schema it leads to; it is empty exactly when the schemas agree |
| SchemaDiff.SecondPassIsTargetIff | trunk/sql/database.py:162-215 | the schema reached is the target, up to the normal form of definitions, if and only if every text sent comes back with the normal form it was sent for |
| SchemaDiff.FileSettles | trunk/sql/database.py:143-199 | that holds whenever every column of the file is a line of a definition, commas included, and the database prints a line of the definition it is given |
| SchemaDiff.ArrivesIff | trunk/sql/database.py:167-199 | a column ends with the definition of the file if and only if its table is created, or it is left alone and had the definition already, or it is sent and there is no comma in it |
| SchemaDiff.IdenticalIff | trunk/sql/database.py:162-215 | the whole schema reached has the tables, columns and definitions of the file if and only if that holds for every column |
| SchemaDiff.DecimalDoesNotArrive | trunk/sql/database.py:172-199 | wherever the file's column with decimal(13,2) has to be added or modified, it ends as decimal(132), and the next diff takes that for the same |
| SchemaDiff.RunKeepsTablesFilled | trunk/sql/database.py:167-215 | no state on the way has an empty table, if none did at the start |
| SchemaDiff.Converge | trunk/sql/database.py:153-215 | the commands run through if and only if no target table is empty; they then give the target, and a second diff is empty, if and only if the texts sent come back with their normal forms; for a file of definition lines and a database that prints them the second diff is empty and the definitions are those of the file if and only if ArrivesIff allows every one |
| ColumnText.WhiteMeans | trunk/sql/database.py:189-195 | what strip takes off, by character codes |
| ColumnText.RemoveMeans | trunk/sql/database.py:184-188 | removing a character takes out that one everywhere and keeps the order of the others |
| ColumnText.WrittenOut | trunk/sql/database.py:181-195 | a definition of printable characters without a comma is its own normal form on a line with a comment, with a comma or with neither |
| ColumnText.NormalOfLine | trunk/sql/database.py:181-195 | the normal form of a line of the file or the dump is the definition in it without its commas, whether or not a COMMENT follows and with or without a blank before it; it is the definition itself if and only if there is no comma |
| ColumnText.SameNormalIff | trunk/sql/database.py:181-196 | two lines are taken for the same definition exactly when their definitions agree up to commas |
| ColumnText.NormalShrinks | trunk/sql/database.py:181-195 | taking the normal form always shortens a text, so taking it twice agrees with taking it once exactly when nothing is left |
| ColumnText.AddSendsIff | trunk/sql/database.py:177-178 | what ADD sends for a line is a line of the same definition if and only if there is no comma in the definition |
| ColumnText.CoreUnique | trunk/sql/database.py:181-195 | there is at most one definition in a line |
| ColumnText.DecimalLosesComma | trunk/sql/database.py:177-195 | the instance of the file: decimal(13,2) becomes decimal(132) in the texts of ADD and MODIFY |

## Left out

- MessageParsing.MessageParser.Parse: calls made after the first -1 are not covered; the socket closes the connection then, and the parser is deliberately not re-synchronised.
- Framing.ChunkingInvariance: streams with a packet of more than 2^32 bytes, or an incomplete one of which 2^32 bytes or more are there, are excluded. RobustIff, StreamRobustIff and IncompleteRobustIff show for a stream of one packet, of uncompressed messages and of an incomplete packet that they must be.
- Framing.DispatchRobustIff: streams of 2^32 bytes or more cannot come in one call and are not covered in the direction from failure to loss; DispatchedAndDropped covers the other direction for all sizes.
- Framing.FramesArrive: that inflating undoes deflating belongs to zlib; a compressed frame is taken to stand for whatever it inflates to.
- Md5.Context.Update: chunks beyond the bound are excluded; LoopInBoundsIff shows that the loop then reads past the end of the chunk.
- Md5.Context.FromText: the same bound applies to the truncated length.
- Md5.Drive: each chunk is within the bound of LoopInBoundsIff for the bytes buffered when it is fed.
- HttpParsing.HttpRequestParser.Consume: version numbers are unbounded; the code accumulates them in a signed 32-bit integer, whose overflow C++ leaves undefined. Characters are Dafny characters, those from 128 on standing for negative chars.
- HttpParsing.HttpRequestParser.ParseContentLength: which texts `lexical_cast` reads as a number is a parameter.
- UserId.DidRoundTrip: `lexical_cast` reads digit strings below 2^64 only; the sign prefixes it also accepts are not modelled.
- GlobalId.IdAllocator.Init: parsing the start date is not modelled; its result is a parameter.
- RandomShop.RandomShopConfig.GetRandomItem: the value of `rand_r` is a parameter in 0..2^31-1 and its product with the range is exact; the code's doubles round products above 2^53.
- RandomShop.HitsBounds: counted with the exact product, which is the code's for ranges of at most 2^22 numbers; above, products beyond 2^53 are rounded there.
- RandomShop.OntoIff: likewise the code's for ranges of at most 2^22 numbers.
- RandomShop.WinsBounds: likewise the code's for totals of at most 2^22.
- RandomShop.DrawTold: likewise the code's for totals of at most 2^22.
- SchemaDiff.Compare: a table is created from its column lines; keys, indexes and the rest of the `createsql` text are not modelled, nor is the order of columns in a table. The database takes every text as a definition of the column.
- SchemaDiff.FileSettles: definitions in which taking out the commas brings the word COMMENT together are excluded.
- SchemaDiff.ArrivesIff: the same exclusion.
- SchemaDiff.IdenticalIff: the same exclusion.
- `readSqlToDict`, `doCmdByConf` and the other commands of `database.py`: regular expressions over files and shell calls.
- Logging, sockets, acceptors, databases, redis, Lua, configuration tables and generated protobuf code: input and output, or finite data.
- The disabled allocator of `global_id.cpp` and the copies under `branches/20180201`: the same algorithms again.
