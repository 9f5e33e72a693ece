# A verified model of libreactor

libreactor is an io_uring event loop with its own containers, an HTTP/1.1 server and a bundled HTTP
parser. This project models its sequential algorithms and its callback-driven state machines in
Dafny 4.11 and proves what they are meant to guarantee. `dafny verify dfyconfig.toml` checks all of it.

C code that changes state in place is written as classes and methods over arrays; each method is
proved against a function, and the promises are proved of those functions, over all inputs or over
all runs. Code that is driven by the kernel and by user callbacks is a step system whose runs are
arbitrary interleavings; the classes beside it perform exactly those steps.

## The components

- **Hash map** (`Words`, `ProbeTable`, `HashMap`). Linear probing over a power-of-two array, growth by
  rehash, backward-shift deletion. The class refines a finite map with put-if-absent insertion, and every
  probe, shift and the mutual recursion of insert, reserve and rehash terminates.
- **Chunked transfer coding** (`ChunkDecoder`, `ChunkGrammar`, `Dechunk`, `ChunkArithmetic`,
  `ChunkAgreement`, `ChunkText`, `Numbers`, `NumberText`). The resumable in-place decoder is
  split-invariant and accepts exactly a grammar; the server's own two-pass in-place reader joins exactly
  the chunk bodies, and equals exact arithmetic exactly if no length on the way wraps; the two readers
  agree on the bodies of section 7.1 of RFC 9112 exactly if every size has at most 16 digits, and give
  back what a sender wrote.
- **HTTP parser** (`Alphabet`, `HttpSyntax`, `HttpGrammar`, `HttpStability`, `HttpViability`,
  `HttpComplete`, `HttpParser`, `HttpRequests`, `HttpReader`, `WrittenRequests`). The cursor-driven code
  computes functions that succeed exactly on the heads of a grammar over literal character classes;
  results are stable under more input, proper prefixes of a success ask for more, input is refused as soon
  as nothing can come of it but for two late checks, and the quick completeness check never changes a
  success. The request reader is modelled with its 64-bit sums and its int result, related to the exact
  one by an if and only if, and gives back requests as a client writes them.
- **Response writer** (`Decimal`, `HttpWriter`, `RoundTrip`). The allocated space is filled exactly, with
  a literal text; parsing it returns status, reason, fields and head length.
- **Server connection** (`Stream`, `Server`, `ServerAnswers`, `ServerRequest`, `HttpServer`,
  `HttpServerCode`, `ServedRequests`). However input is cut up, output is taken and answers are timed, the
  requests dispatched are a prefix of those in the whole input, all of them while a read is outstanding; a
  live connection never stalls; held bytes do not move; and the peer is sent the user's answers, whole, in
  order and nothing else. This is proved for every parser that is stable along the run, and then for the
  code's. A client's pipelined requests are served in whatever pieces they arrive.
- **Queue** (`Queue`, `QueueRuns`, `QueueOrder`, `QueueProgress`, `QueueDisturbance`). Any number of
  producers and consumers on one pipe: over a run every pushed element is in exactly one place at every
  moment, exactly if no read is filled into a batch that is still being handed over; and elements are
  delivered in the order of the pipe.
- **Reactor** (`Pool`, `Ring`, `Reactor`, `ReactorCalls`, `ReactorLoop`). The life of operation records,
  who is called when and with which callback, cancellation, the queue of next callbacks while it is
  drained, completions, and the submission ring on wrapping 32-bit counters.
- **Buffer and bytes** (`Buffer`, `Bytes`, `Options`). The byte sequence under stream, queue and writer.

## What the proofs found

- *Sizes with leading zeros.* `phr_decode_chunked` refuses a chunk size of more than 16 digits, also when
  the extra digits are zeros; `http_dechunk` takes them. `ChunkAgreement.DecodersAgree` gives the exact
  condition, `ChunkAgreement.SeventeenZerosDisagree` a body.
- *Blank chunk-size lines.* `http_chunk` finds the line feed first, but hands `strtoull` everything that
  follows. On a size line of white space alone the number is read from the next line, so a whole request
  can become incomplete when bytes are appended (`Counterexamples.BlankLineRequest`), and what the server
  dispatches depends on how the input was cut up (`Counterexamples.BlankLineRun`).
  `ChunkArithmetic.ChunkStableIff`, `ChunkArithmetic.DechunkStableIff` and `HttpReader.RequestStableIff`
  say exactly when a chunk, a body and a request are stable; `HttpServerCode.OneRequestSafeIff` says the
  same of a run of the server.
- *Sums that wrap.* `http_chunk` and `http_read_request` add sizes modulo 2^64. A chunk size of -1 is read
  as 2^64 - 1 and counted as a short chunk, after which the second pass moves that many bytes
  (`ChunkArithmetic.MinusOneOverruns`); a Content-Length near 2^64 makes a request shorter than its head,
  or of length 0, on which the server's assertion fails (`Counterexamples.LengthsThatWrap`).
  `ChunkArithmetic.DechunkIsExactIff` and `HttpReader.CodeReadIsExactIff` say exactly when the code
  computes what exact arithmetic does.
- *Empty header blocks.* `phr_parse_headers` with a last length of 1 on a lone CR LF answers "more" where
  a first try succeeds (`HttpComplete.EmptyBlockTurnedAway`). `HttpComplete.HeadersCheckIsTransparentIff`
  gives the condition; requests and responses are not affected, because a line precedes their headers.
- *Late refusals.* `phr_parse_request` refuses input as soon as nothing can come of it, with two
  exceptions: a request line that starts with a space is refused only behind its target, and a wrong
  version only when nine bytes are there. `HttpViability.ViableIff` says so exactly.
- *Reads inside a batch.* A consumer's callback that asks for the next read lets the kernel overwrite the
  batch that is being handed over, should the ring be flushed meanwhile. `QueueDisturbance.DisturbedRun`
  is such a run from the start, in which an element is lost. `QueueRuns.AllOnceIffUndisturbed` gives the
  condition for whole runs and `QueueRuns.StepKeepsAllOnceIff` for a step; it holds if no callback asks
  for a read (`QueueRuns.NoPopNoDisturbance`).
- *Content-Length of large bodies.* The body size is printed as a 32-bit number, so it is right exactly
  below 2^32 bytes (`RoundTrip.LengthIsBodySizeIff`).

## Model

| member | source | states |
|---|---|---|
| Words.RoundUp | src/reactor/map.c:8-20 | the smear sequence gives the least power of two not below the size for 1 to 2^63, and wraps to 0 for 0 and anything larger |
| Words.SmearStep | src/reactor/buffer.c:9-14 | one `s \|= s >> k` doubles the run of ones below the top bit |
| Words.MaskIsModulo | src/reactor/map.c:103 | masking with capacity - 1 is reduction modulo the capacity when that is a power of two |
| HashMap.Map.constructor | src/reactor/map.c:64-71 | an empty valid map of the minimum capacity |
| HashMap.Map.Rehash | src/reactor/map.c:37-60 | the contents survive, the capacity becomes a power of two of at least the size asked for |
| HashMap.Map.CopyInto | src/reactor/map.c:53-55 | inserting every element into the new table gives the same contents and never rehashes again |
| HashMap.Map.Reserve | src/reactor/map.c:86-91 | contents kept; twice the size fits; nothing changes if it fitted before |
| HashMap.Map.At | src/reactor/map.c:95-109 | ends at the key's slot if it is present, else at the empty slot that its probe reaches |
| HashMap.Map.Insert | src/reactor/map.c:113-126 | put-if-absent on the finite map; no rehash while the element fits |
| HashMap.Map.Erase | src/reactor/map.c:128-166 | exactly the erased key is gone; an absent key changes nothing; the table is valid again |
| HashMap.Map.BackwardShift | src/reactor/map.c:149-165 | closing the gap loses and duplicates no element and restores the probing invariant |
| HashMap.Map.Get | src/reactor/mapi.c:57-60 | the stored value, 0 for an absent key |
| HashMap.Map.Clear | src/reactor/map.c:168-176 | empty at the minimum capacity |
| HashMap.Map.Run | src/reactor/map.c:86-176 | any sequence of insert, erase, reserve and clear acts as on a finite map |
| HashMap.FirstInsertWins | src/reactor/map.c:113-176 | after any sequence a key has a value exactly if some insert of it took effect on an absent key and was not undone |
| ProbeTable.ProbeStep | src/reactor/map.c:101-108 | a probe that passes a filled slot comes nearer to an empty one, so lookups end |
| ProbeTable.ProbeMiss | src/reactor/map.c:105-106 | a probe that ends at an empty slot proves the key absent |
| ProbeTable.InsertKeepsProbing | src/reactor/map.c:118-123 | filling the probe's end keeps every element reachable from its home |
| ProbeTable.ShiftTestIsOnPath | src/reactor/map.c:157-158 | the cyclic three-way test holds exactly if the gap lies on the path from home k to slot j |
| ProbeTable.GapMoves | src/reactor/map.c:160-161 | moving an element into the gap keeps all others reachable and moves the gap |
| ProbeTable.GapScans | src/reactor/map.c:152-158 | an element that stays was not reached through the gap |
| ProbeTable.GapCloses | src/reactor/map.c:153-165 | at the next empty slot the gap may be emptied: the probing invariant holds everywhere |
| Alphabet.HexAlphabet | src/picohttpparser/picohttpparser.c:510-521 | each of the sixteen digits, in the texts 0123456789abcdef and 0123456789ABCDEF, has its value, and every other byte gives -1 |
| ChunkDecoder.StepKeepsValid | src/picohttpparser/picohttpparser.c:528-627 | each byte keeps the decoder's invariant |
| ChunkDecoder.SizeFitsWord | src/picohttpparser/picohttpparser.c:542-547 | the size stays below 16 to the power of its digit count, so 64 bits never wrap |
| ChunkDecoder.FeedKeepsValid | src/picohttpparser/picohttpparser.c:523-636 | the invariant over any input; no more output than input used |
| ChunkDecoder.FeedSplit | src/picohttpparser/picohttpparser.c:526-534 | cutting the input in two and resuming changes nothing |
| ChunkDecoder.SplitInvariance | src/picohttpparser/picohttpparser.c:523-636 | over any sequence of pieces: same output, final state, verdict and bytes used as in one call |
| ChunkDecoder.Decoder.Decode | src/picohttpparser/picohttpparser.c:523-636 | in place: output first, undecoded tail right behind it, rest untouched, state and result as the byte-wise machine says |
| ChunkDecoder.Decoder.Turns | src/picohttpparser/picohttpparser.c:528-627 | the outer loop ends, with dst never beyond src |
| ChunkDecoder.Decoder.ScanSize | src/picohttpparser/picohttpparser.c:530-550 | the size loop is a run of byte steps |
| ChunkDecoder.Decoder.Data | src/picohttpparser/picohttpparser.c:571-587 | the bulk move of chunk data is a run of byte steps, whether or not all of it is there |
| ChunkDecoder.CloseGap | src/picohttpparser/picohttpparser.c:629-634 | the tail moves down directly behind the output |
| ChunkGrammar.DecodesRendered | src/picohttpparser/picohttpparser.c:523-636 | every body of the grammar decodes to its payload, whatever follows |
| ChunkGrammar.AcceptedIsRendered | src/picohttpparser/picohttpparser.c:523-636 | every completed input is a body of the grammar, decoded to its payload |
| ChunkGrammar.TrailersAt | src/picohttpparser/picohttpparser.c:603-623 | trailer lines are consumed up to and including the closing line |
| ChunkGrammar.LongSizeAt | src/picohttpparser/picohttpparser.c:542-545 | a seventeenth digit is an error |
| Numbers.StrToUllExtend | src/reactor/http.c:86 | a number that ends inside the bytes is read the same when more follow |
| Numbers.StrToUllRunsOn | src/reactor/http.c:86 | behind a number that ran to the end of the bytes a digit 1 is read into it; the value then differs unless it was saturated (Numbers.LongerNumber) |
| Numbers.NumberStopsAt | src/reactor/http.c:86 | behind a byte that belongs to no number (no hexadecimal digit, sign, x or white space) strtoull reads what it would read if the bytes ended there |
| NumberText.WrittenNumber | src/reactor/http.c:86 | strtoull on digits written by division in base 10 or 16, in either case, behind white space, a sign and a 0x: their number, saturated at 64 bits, negated modulo 2^64 behind a minus sign |
| NumberText.DecimalRead | src/reactor/http.c:155 | strtoull reads back the decimal digits of every 64-bit length |
| Dechunk.HttpChunk | src/reactor/http.c:78-92 | the span of one chunk by the code's arithmetic (Wrapping) and by two exact readings; what is counted lies inside the input, and for the exact readings so does the body |
| Dechunk.ChunkAt | src/reactor/http.c:78-92 | strtoull gets all of the buffer from the chunk on, and the span is still that of the input alone, if the byte behind the input belongs to no number |
| Dechunk.HttpDechunk | src/reactor/http.c:94-119 | in place, with the sums of http_chunk and such a byte behind the input: the joined chunk bodies and nothing else written; incomplete leaves the buffer as it was; an overrun is reported exactly if a wrapped chunk is counted |
| Dechunk.FirstPass | src/reactor/http.c:99-106 | the number of bytes the first pass walks over, 0 for incomplete, without touching the buffer |
| Dechunk.JoinOne | src/reactor/http.c:110-116 | the second pass reads the headers that the first pass read, after earlier moves |
| Dechunk.LineDechunkStable | src/reactor/http.c:94-119 | with each size read from its line alone, a complete coded body stays what it is when bytes follow |
| ChunkArithmetic.ChunkIsExactIff | src/reactor/http.c:86-91 | the code's chunk is the exact one exactly if its end fits 64 bits, or wraps to a length that is incomplete as well |
| ChunkArithmetic.DechunkIsExactIff | src/reactor/http.c:94-119 | http_dechunk computes what exact arithmetic does exactly if, once its first pass has ended, no size on the way made a length wrap |
| ChunkArithmetic.MinusOneOverruns | src/reactor/http.c:86-91 | a chunk size of -1 is counted as a chunk of four bytes, and the body that contains it overruns |
| ChunkArithmetic.ChunkStableIff | src/reactor/http.c:78-92 | a chunk that the code counts is stable under every extension exactly if the size number ends inside the input or is saturated |
| ChunkArithmetic.DechunkStableIff | src/reactor/http.c:94-119 | a body that the code completes is stable under every extension exactly if every size number it meets ends inside the input |
| Dechunk.RunsOut | src/reactor/http.c:83-90 | a chunk whose size number runs to the end of the input is followed by no last chunk |
| Dechunk.NoBlankNumbersEnd | src/reactor/http.c:83-86 | without blank size lines every size number of a complete body ends inside the input |
| Dechunk.ReadingsAgree | src/reactor/http.c:86 | reading a size from all that follows equals reading it from its line, on all inputs without blank size lines |
| Dechunk.BlankLineUnstable | src/reactor/http.c:83-90 | a complete chunk on a blank size line that one more byte makes incomplete |
| ChunkAgreement.CodeDechunksRendered | src/reactor/http.c:94-119 | every body of section 7.1 of RFC 9112 without trailers gives its payload and length, in the code's arithmetic |
| ChunkAgreement.LongSizesFail | src/picohttpparser/picohttpparser.c:542-545 | the decoder fails on such a body if some size has more than 16 digits |
| ChunkAgreement.DecodersAgree | src/reactor/http.c:78-119 | both readers give the same body and length exactly if all sizes have at most 16 digits |
| ChunkAgreement.SeventeenZerosDisagree | src/picohttpparser/picohttpparser.c:542-545 | the empty body with its size written as seventeen zeros is taken by one reader and refused by the other |
| ChunkText.WrittenBodyIsRead | src/reactor/http.c:78-119 | a body whose sizes are written in hexadecimal by division, in either case, is read back by http_dechunk, and by the decoder if the sizes have at most 16 digits: the data joined, and the length of the body |
| HttpParser.ScanValue | src/picohttpparser/picohttpparser.c:147-179 | the eight-byte unrolled scan finds the first byte that ends a value |
| HttpParser.GetTokenToEol | src/picohttpparser/picohttpparser.c:134-195 | the rest of the line and its end, by the line grammar |
| HttpParser.AdvanceToken | src/picohttpparser/picohttpparser.c:71-94 | the token up to the next space, or -1 at a control character |
| HttpParser.ParseHttpVersion | src/picohttpparser/picohttpparser.c:245-261 | HTTP/1. and a digit, -2 with fewer than nine bytes |
| HttpParser.ParseHeaderLine | src/picohttpparser/picohttpparser.c:280-336 | one field line of section 5 of RFC 9112, or a folded continuation |
| HttpParser.ParseHeaders | src/picohttpparser/picohttpparser.c:263-339 | fills the slots with the headers that the grammar reads, -1 when there are too many |
| HttpParser.CheckComplete | src/picohttpparser/picohttpparser.c:197-223 | the scan for a blank line from three bytes before the last length |
| HttpParser.PhrParseRequest | src/picohttpparser/picohttpparser.c:341-409 | result and spans of the request grammar, with the quick check in front |
| HttpParser.PhrParseResponse | src/picohttpparser/picohttpparser.c:411-478 | result and spans of the response grammar, with the quick check in front |
| HttpGrammar.ParseRequestIff | src/picohttpparser/picohttpparser.c:341-381 | phr_parse_request succeeds, with this length and these spans, exactly on the request heads of a grammar over literal character classes |
| HttpGrammar.ParseResponseIff | src/picohttpparser/picohttpparser.c:411-452 | the same for responses; the status is the number that three decimal digits denote |
| HttpGrammar.IsCompleteIff | src/picohttpparser/picohttpparser.c:197-223 | the quick check ends behind the first empty line from three bytes before the last length, if every carriage return before it is followed by a line feed, and nowhere else |
| HttpGrammar.TokenCharIff | src/picohttpparser/picohttpparser.c:96-103 | the bytes of a field name are letters, digits and the fifteen symbols of section 5.6.2 of RFC 9110 |
| HttpGrammar.EndsValueIff | src/picohttpparser/picohttpparser.c:147-179 | a value goes on over visible characters, bytes beyond ASCII, spaces and tabs, and over nothing else |
| HttpViability.ViableIff | src/picohttpparser/picohttpparser.c:341-381 | some continuation of the input is accepted exactly if it is not refused, its line does not start with a space, and what is there of a version may begin one |
| HttpStability.RequestKeeps | src/picohttpparser/picohttpparser.c:341-381 | a success keeps length and spans on every extension, and -1 stays -1 |
| HttpStability.ResponseKeeps | src/picohttpparser/picohttpparser.c:411-452 | the same for responses |
| HttpStability.PrefixVerdicts | src/picohttpparser/picohttpparser.c:341-381 | every proper prefix of a parsed head gives -2, every longer one the same success |
| HttpStability.ResponsePrefixVerdicts | src/picohttpparser/picohttpparser.c:411-452 | every proper prefix of a parsed response head gives -2 |
| HttpStability.HeadersLocal | src/picohttpparser/picohttpparser.c:263-339 | parsed headers do not depend on what follows them |
| HttpComplete.ScanFinds | src/picohttpparser/picohttpparser.c:197-223 | a scan started inside a block of whole lines reaches its closing blank line |
| HttpComplete.RequestCheckIsTransparent | src/picohttpparser/picohttpparser.c:397-405 | with any earlier length the retry gives what a first try gives |
| HttpComplete.ResponseCheckIsTransparent | src/picohttpparser/picohttpparser.c:467-475 | the same for responses |
| HttpComplete.HeadersCheckIsTransparentIff | src/picohttpparser/picohttpparser.c:480-499 | for bare headers the retry gives what a first try gives exactly if there is a header, or another line end or a blank line follows the empty block |
| HttpComplete.EmptyBlockTurnedAway | src/picohttpparser/picohttpparser.c:480-499 | the lone CR LF, and one with a letter behind it, are turned away; two of them are not |
| HttpRequests.FieldLookup | src/reactor/http.c:121-129 | the value of the first field of that name, or none |
| WrittenRequests.EqualCaseIff | src/reactor/data.c:32-35 | two texts match exactly if at each place the bytes are equal or the two cases of one letter, the letters being given as ABC to Z and abc to z |
| WrittenRequests.LookupReads | src/reactor/http.c:121-129 | among fields as they were written, the lookup gives the value of the first with that name, in whatever case the two are written |
| HttpRequests.LengthKeeps | src/reactor/http.c:155 | the Content-Length number ends inside its field value |
| HttpRequests.ReadRequestKeeps | src/reactor/http.c:131-175 | with exact lengths and sizes read from their lines, whole requests with their bodies are stable under more input, and so are errors |
| HttpRequests.RequestFits | src/reactor/http.c:153-170 | with exact lengths, head and body end inside the length returned |
| HttpReader.CodeReadIsExactIff | src/reactor/http.c:131-175 | with a head of less than 2^31 bytes, the int that http_read_request returns, and what it found, are those of exact arithmetic exactly if the ends of chunks and body fit 64 bits and the whole request an int |
| HttpReader.LongHeadIsCut | src/reactor/http.c:137-145 | a whole request of any method whose head has 2^31 bytes or more does not come back with its length |
| HttpReader.RequestStableIff | src/reactor/http.c:131-175 | a request that the code has found is stable under every extension exactly if in a chunked body all size numbers end inside the input |
| HttpReader.SettledKeeps | src/reactor/http.c:131-175 | what the code returns for a settled input, unless it asks for more, it returns for every extension; errors always stay errors |
| HttpReader.PlainRequestIsExact | src/reactor/http.c:131-175 | if lengths fit and no chunk-size line is blank, the code returns what the exact reader of the size lines does |
| HttpReader.CodeReadInside | src/reactor/http.c:153-170 | a request that the code has found ends inside the buffer, and nothing behind its end is rewritten, unless it is a chunked one of 2^31 bytes or more; the buffer may be longer |
| HttpReader.HttpReadRequest | src/reactor/http.c:131-175 | the code's return value, head and body (section 6.3 of RFC 9112) for every input behind which stands a byte that belongs to no number; only a complete chunked body is rewritten, behind the head |
| HttpReader.DeclaredAt | src/reactor/http.c:155 | the declared length, read by strtoull from the buffer, is the one read from the input |
| HttpReader.ReadLength | src/reactor/http.c:156-159 | the declared body, with the sum that may wrap and the cut to int |
| WrittenRequests.RequestHeadAt | src/picohttpparser/picohttpparser.c:341-381 | any written request head is read back: method, target, fields in order, and its length |
| WrittenRequests.FramingIsRead | src/reactor/http.c:145-174 | a written GET ends with its head; anything else with both framings, none, or a coding other than chunked gives -1, in whatever case the words are written |
| WrittenRequests.LengthIsRead | src/reactor/http.c:151-160 | with a Content-Length in any case, the body is that many of the bytes that follow, as soon as they are there |
| WrittenRequests.ChunkedIsRead | src/reactor/http.c:163-171 | with Transfer-Encoding: chunked in any case, a body in written chunks gives its data joined, whatever follows |
| Buffer.Buffer.Reserve | src/reactor/buffer.c:58-66 | room for the capacity, contents kept |
| Buffer.Buffer.Resize | src/reactor/buffer.c:68-73 | truncates or extends, the common part kept |
| Buffer.Buffer.Compact | src/reactor/buffer.c:75-82 | capacity equals size, contents kept |
| Buffer.Buffer.Allocate | src/reactor/buffer.c:84-92 | space behind the contents, which are kept |
| Buffer.Buffer.Insert | src/reactor/buffer.c:96-103 | the bytes stand at the position, everything around them in order |
| Buffer.Buffer.Erase | src/reactor/buffer.c:118-122 | exactly the range is gone |
| Decimal.U32LenIsExact | src/reactor/http.c:8-15 | the estimate by bit length, corrected by the table, is the number of decimal digits of every 32-bit number |
| Decimal.DigitsDenote | src/reactor/http.c:17-45 | the digits denote the number and have no leading zero to spare |
| Decimal.Sprint | src/reactor/http.c:17-45 | writes exactly the digits of the number, just before the end pointer |
| HttpWriter.PushField | src/reactor/http.c:68-76 | name, colon, space, value and line end behind what was written |
| HttpWriter.FieldsTextSizes | src/reactor/http.c:188-190 | the space allocated is the length of the response |
| HttpWriter.LengthDigits | src/reactor/http.c:184-186 | the decimal digits of the body size as a 32-bit number |
| HttpWriter.WriteResponse | src/reactor/http.c:177-203 | appends exactly the response to the buffer |
| HttpWriter.ResponseIsText | src/reactor/http.c:192-202 | the response is the literal text HTTP/1.1, the status, Server: reactor, Date, Content-Type unless empty, Content-Length in decimal digits, an empty line and the body |
| RoundTrip.FieldsAt | src/reactor/http.c:68-76 | any list of valid fields written by http_push_field is read back in order by parse_headers |
| RoundTrip.ResponseRoundTrip | src/reactor/http.c:177-203 | parsing a written response returns status code, reason, fields in order, and the length of all but the body |
| RoundTrip.LengthIsBodySizeIff | src/reactor/http.c:184-186 | Content-Length denotes the body size exactly if that is below 2^32 |
| Stream.SendStepKeepsOk | src/reactor/stream.c:36-64 | any partial send: acknowledged, unsent and waiting bytes stay what was written; flushed means all acknowledged |
| Stream.OutputConserved | src/reactor/stream.c:36-75 | the same over any run of writes, flushes, sends and reads |
| Stream.InputConserved | src/reactor/stream.c:10-34 | over any run the input is what was received, in order, without the bytes consumed |
| Stream.OutstandingDataStays | src/reactor/stream.c:66-75 | the bytes of an outstanding send are not modified |
| Stream.Connection.Flush | src/reactor/stream.c:161-173 | the flush as the code does it |
| Stream.Connection.OnSend | src/reactor/stream.c:36-64 | the send callback as the code does it, with the event it raises |
| Stream.Connection.OnRecv | src/reactor/stream.c:10-34 | the receive callback: close, error, or bytes appended to the input |
| Server.ParseInputInv | src/reactor/server.c:44-75 | the parse loop with any callbacks keeps the connection invariant, with a parser that makes progress and writes only inside requests |
| Server.TakeInv | src/reactor/server.c:77-98 | every receive, send, answer and disconnect keeps the connection invariant |
| Server.DispatchesRequests | src/reactor/server.c:29-98 | over all runs along which the parser is stable, what was dispatched is a prefix of the requests in all input, and all of them while a read is outstanding |
| Server.CutsDoNotMatter | src/reactor/server.c:44-75 | two connections with the same input, cut and answered differently, dispatched the same requests once both wait for more |
| Server.NeverStalls | src/reactor/server.c:36-98 | reading, sending or a request in progress at all times; output that is left is being sent, also while a request is held; reading only with everything answered and acknowledged |
| Server.HeldUntilAnswered | src/reactor/server.c:62-71 | the bytes of a held request stay where they are until it is answered |
| ServerAnswers.AnswersAreSent | src/reactor/server.c:175-182 | over all runs, what the peer has been sent, what is being sent and what waits are the answers to the dispatched requests in order, whole and nothing else, told from the callback's actions and the later answers alone; while reading, the peer has them all |
| ServerAnswers.AnswerTo | src/reactor/server.c:65-74 | the k-th answer is the callback's own to request k, or the argument of the answer that ended its hold |
| ServerAnswers.ClosedIff | src/reactor/server.c:54-70 | a connection is closed exactly if the last step failed, the callback hung up in the last request, or the input goes on with no request once all before is answered and sent |
| ServerRequest.Request.ServerParse | src/reactor/server.c:44-75 | the code's parse loop takes the connection to the state the model says |
| ServerRequest.Request.ServerIo | src/reactor/server.c:36-42 | flushes if output is left, else reads |
| ServerRequest.Request.ServerRespond | src/reactor/server.c:175-182 | an answer outside the callback is written and flushed |
| ServerRequest.Request.OnEvent | src/reactor/server.c:77-98 | the stream callback's dispatch |
| ServerRequest.Request.OnReceived | src/reactor/server.c:77-98 | a receive completion performs the model's step |
| ServerRequest.Request.OnSent | src/reactor/server.c:77-98 | a send completion performs the model's step |
| HttpServer.HttpParserOk | src/reactor/http.c:131-175 | the exact reader of the size lines is stable on all inputs, makes progress and writes only inside the request |
| HttpServer.HttpServerDispatches | src/reactor/server.c:29-98 | the server's promises with that reader, on every run |
| HttpServerCode.SettledIsSound | src/reactor/http.c:131-175 | on input whose requests are settled, none of them a chunked one of 2^31 bytes or more, the code's reader makes progress and writes only inside the requests |
| HttpServerCode.CodeServerDispatches | src/reactor/server.c:29-98 | the server's promises with the code's reader, on every run in which the requests that have arrived are settled and none is a chunked one of 2^31 bytes or more; what a connection receives over time is bounded only by 2^63 bytes |
| HttpServerCode.PlainServerDispatches | src/reactor/server.c:29-98 | so they hold in whatever pieces a stream arrives whose lengths fit and whose chunk-size lines are not blank |
| HttpServerCode.OneRequestSafeIff | src/reactor/server.c:44-75 | the run that receives one request whole, not a chunked one of 2^31 bytes or more, keeps the promise for every continuation exactly if the request is settled |
| HttpServerCode.HeldRequestInPlace | src/reactor/server.c:50-66 | on such runs, while a request is in progress the buffer in front of the offset holds its head as it came in and behind it the body that was found |
| ServedRequests.WrittenRequestsAreServed | src/reactor/server.c:29-98 | requests written one after the other, cut up anyhow on their way and answered at any time: the server dispatches the first of them in order, and once all has come in and it waits for more, all of them, and the peer has exactly the answers |
| ServedRequests.MessageIsWritten | src/reactor/http.c:131-175 | what the user is handed for a written request has its method, target and fields |
| ServedRequests.RefusedIsClosed | src/reactor/server.c:54-55 | a request with two framings, with none, or with an unknown coding closes the connection; nothing is dispatched or sent |
| ServedRequests.SeventeenFieldsAreClosed | src/reactor/server.c:51-55 | so does a request with more than sixteen fields |
| ServedRequests.TestRequestIsRead | test/http.c:81-89 | the POST of the repository's test, in 78 bytes, is one of the requests that are served, with the body test |
| Counterexamples.LargeLengthWraps | src/reactor/http.c:155-159 | a declared length that takes n + size to 2^64 or beyond returns the wrapped sum and a body outside the buffer |
| Counterexamples.LengthsThatWrap | src/reactor/http.c:155-159 | two such requests, one of which returns 0, the value that the assertion at server.c:61 excludes |
| Counterexamples.BlankLineRequest | src/reactor/http.c:83-90 | a whole request with a blank size line that one more byte makes incomplete |
| Counterexamples.BlankLineRun | src/reactor/server.c:44-75 | the server dispatches that request, although the stream that goes on holds none |
| Queue.PushHolds | src/reactor/queue.c:99-103 | a push goes behind everything the producer holds |
| Queue.WroteHolds | src/reactor/queue.c:36-50 | a completed or interrupted write changes nothing about what is held |
| Queue.CloseHolds | src/reactor/queue.c:110-122 | after a close exactly what an outstanding write may still put into the pipe is left |
| Queue.FillHolds | src/reactor/queue.c:155-161 | a read that is filled adds its elements behind what the consumer holds, unless it overwrites the batch |
| Queue.QueueProducer.UpdateOutput | src/reactor/queue.c:52-79 | the update as the code does it, at most 128 elements per write |
| Queue.QueueProducer.PushElement | src/reactor/queue.c:99-103 | the push as the code does it |
| Queue.QueueProducer.OnWrite | src/reactor/queue.c:36-50 | the write completion as the code does it |
| Queue.QueueConsumer.OnRead | src/reactor/queue.c:131-153 | the batch is handed over in order, up to the element whose callback closes the consumer; callbacks may start the next read |
| Queue.QueueConsumer.OnReadInterrupted | src/reactor/queue.c:138-142 | an interrupted read delivers nothing and is started again |
| Queue.QueueConsumer.Close | src/reactor/queue.c:195-207 | the outstanding read is given up |
| QueueRuns.TakeInv | src/reactor/queue.c:36-207 | every step of producers, consumers and the kernel keeps the invariant, except a read filled into a batch |
| QueueRuns.StepKeepsAllOnceIff | src/reactor/queue.c:131-161 | a step keeps every element in exactly one place exactly if it fills no read into a batch that is being handed over |
| QueueRuns.EveryElementOnce | src/reactor/queue.c:36-207 | over all runs without such a read each pushed element is in exactly one place, none is delivered twice, and each producer's elements enter the pipe in push order without a gap |
| QueueRuns.AllOnceIffUndisturbed | src/reactor/queue.c:131-161 | over any run, with any number of producers and consumers: every pushed element is in exactly one place at every moment exactly if no read was filled into a batch |
| QueueDisturbance.DisturbedRun | src/reactor/queue.c:144-161 | a run of thirteen steps with one producer and one consumer of batch size two, whose last read overwrites an element, which is then nowhere |
| QueueOrder.ConsumerKeepsOrder | src/reactor/queue.c:131-161 | over all runs without such a read, what a consumer was given and then what it holds left the pipe in that order, whoever else reads from it |
| QueueOrder.OneConsumerGetsAll | src/reactor/queue.c:131-161 | a single consumer that is never closed: deliveries, what it holds and the pipe are everything that entered, in that order |
| QueueRuns.NoPopNoDisturbance | src/reactor/queue.c:144-161 | if no callback asks for the next read, there is no such read |
| QueueRuns.NoCloseNoLoss | src/reactor/queue.c:36-161 | while nobody closes, nothing is dropped |
| QueueProgress.EveryStepCounts | src/reactor/queue.c:99-153 | over all runs as many elements of a producer are accounted for as it has pushed, and as many are delivered as callbacks were called |
| QueueProgress.KeepsAsking | src/reactor/queue.c:138-161 | over all runs a consumer that has asked once is reading or handing over until it is closed |
| QueueProgress.UpdateWrites | src/reactor/queue.c:52-79 | an update without a write outstanding starts one exactly if elements are held, of all that is left up to 128 |
| QueueProgress.HoldingIsWriting | src/reactor/queue.c:52-79 | at every moment an open producer that holds an element has a write outstanding |
| Pool.MallocOk | src/reactor/pool.c:26-45 | the object handed out was not live, is taken from the top of the free stack, and every object stays live or free, once |
| Pool.FreeOk | src/reactor/pool.c:47-51 | a freed live object lies on the free stack, once |
| Pool.ObjectPool.NewChunk | src/reactor/pool.c:31-39 | a new chunk's 128 objects become free |
| Pool.ObjectPool.Allocate | src/reactor/pool.c:26-45 | the allocation as the code does it |
| Ring.SubmissionRing.Put | src/reactor/reactor.c:101-104 | the slot handed out holds no pending entry, although the 32-bit counters wrap |
| Ring.SubmissionRing.Submit | src/reactor/reactor.c:96-105 | entries reach the kernel in submission order, none lost or overwritten, at most the ring's size pending |
| Ring.SubmissionRing.Flush | src/reactor/reactor.c:85-94 | a full ring is handed over, so that a slot is free |
| Ring.SubmissionRing.Enter | src/reactor/reactor.c:118-124 | the kernel finds exactly the pending entries through the order array |
| Ring.SlotWraps | src/reactor/reactor.c:101 | wrapping the counter does not change the slot |
| Ring.SlotsDiffer | src/reactor/reactor.c:101 | counters closer than the ring's size select different slots |
| Reactor.TakeInv | src/reactor/reactor.c:174-320 | every step of user code, the loop and the kernel keeps: each live record has exactly one owner, serials are used once, the next queue is in order |
| Reactor.RecordsLiveOnce | src/reactor/reactor.c:174-185 | over all runs live records equal the pool's count, none is on the free stack, each record ever allocated is live or was freed exactly once, next callbacks ran in the order queued |
| Reactor.NeverCallsFreedRecord | src/reactor/reactor.c:256-279 | the loop never meets a queued callback or a completion whose record is gone |
| Reactor.ExitsWhenNothingIsLive | src/reactor/reactor.c:242-246 | between turns the pool is empty exactly if nothing is queued, in the kernel or completed |
| Reactor.CancelledStaysCancelled | src/reactor/reactor.c:288-296 | after a cancel the original callback never runs again |
| Reactor.StepCallsCurrent | src/reactor/reactor.c:283-286 | a call goes to the record's current callback, which only a cancel changes |
| ReactorCalls.EachCall | src/reactor/reactor.c:254-280 | over all runs, who is called in which step: the queued callbacks in the order of reactor_next, the records of completions that are no notifications in the order posted, each with the callback given last, and nobody else |
| ReactorCalls.CallsOwnCallback | src/reactor/reactor.c:174-180 | over all runs, every call of a record goes to the callback it was allocated with until it is cancelled, and to nothing for the request of a cancel |
| ReactorCalls.CancelAsksTheKernel | src/reactor/reactor.c:288-296 | a cancel replaces the callback and submits one operation without a callback exactly if its record does not wait in the queue |
| ReactorLoop.Loop.Submit | src/reactor/reactor.c:322-335 | any operation: a fresh record with that callback, owned by the kernel |
| ReactorLoop.Loop.Next | src/reactor/reactor.c:314-320 | a fresh record with that callback at the end of the queue |
| ReactorLoop.Loop.Cancel | src/reactor/reactor.c:288-296 | the callback is replaced, and one more record without a callback goes to the kernel unless the record is queued |
| ReactorLoop.Loop.DrainNext | src/reactor/reactor.c:254-263 | the queue is drained while it grows, until everything queued has been called |
| ReactorLoop.Loop.TakeCompletions | src/reactor/reactor.c:265-280 | completions are taken until none is left, records freed after their last one |
| ReactorLoop.Loop.LoopOnce | src/reactor/reactor.c:248-281 | one turn is a run of the model's steps; all callbacks queued before it have been called and no completion is left |
| ReactorLoop.Loop.Run | src/reactor/reactor.c:242-246 | the loop has ended exactly if nothing is queued, in the kernel or completed |

## Left out

Buffers are taken to be shorter than 2^63 bytes, as every object in memory is, wherever 64-bit sums are related to exact ones.

- Dechunk.HttpDechunk: the byte behind the input must belong to no number, because strtoull is given no length and reads on into what the buffer holds there; the server does not establish this. At a chunk whose length wrapped the model stops and reports the overrun; what moving 2^64 bytes does is undefined.
- Dechunk.ChunkAt: the same byte behind the input.
- ServedRequests.WrittenRequestsAreServed: the reader enters as in `HttpServerCode.CodeServerDispatches`; each request is shorter than 2^31 bytes and all together shorter than 2^63; declared lengths and sizes are digits without a sign, and chunks have no extensions and no trailers, which `ChunkAgreement` and `ChunkGrammar` cover.
- HttpViability.ViableIff: speaks of requests; responses have `HttpGrammar.ParseResponseIff` and `HttpStability.ResponseKeeps`.
- HttpReader.HttpReadRequest: the same byte behind the input; it also covers the space that the parser would look at.
- HttpReader.CodeReadIsExactIff: heads of 2^31 bytes or more, of which `HttpReader.LongHeadIsCut` says that a whole request is never returned exactly; what an incomplete or invalid one returns is not compared.
- Dechunk.LineDechunkStable: reads each size from its line alone, which the code does not; `ChunkArithmetic.DechunkStableIff` has the code's reading.
- HttpRequests.ReadRequestKeeps: exact lengths and sizes from their lines alone; `HttpReader.SettledKeeps` has the code's.
- HttpServer.HttpParserOk: speaks of the exact reader; the code's reader is not stable on all inputs, so it has no such contract.
- HttpServer.HttpServerDispatches: the exact reader on every run; `HttpServerCode.CodeServerDispatches` has the code's, on settled runs.
- HttpServerCode.CodeServerDispatches: the parser enters as the function that `HttpReader.HttpReadRequest` computes when the byte behind the input belongs to no number; with a stale space, digit or sign there the C code can look at stale bytes, which the model does not capture. Chunked requests of 2^31 bytes or more, whose length the int cannot hold, are excluded. A failed assertion or an overrun ends the process; the model closes the connection.
- HttpParser.PhrParseRequest: the byte behind the input must not be a space, because the code looks at it while it skips spaces; the server does not establish this.
- HttpParser.PhrParseResponse: the same.
- HashMap.Map.Reserve: sizes up to 2^62, because doubling a larger one wraps to a capacity of 0 or less than asked for; the key 0 is not inserted, which is the caller's side of the contract in `mapi.c`.
- HashMap.Map.Erase: its search loop is the one of map_at, written once in the model; the optional release callbacks of insert, erase and clear are not modelled.
- Buffer.Buffer.Reserve: capacities up to 2^63, above which the code's rounding gives 0; the storage is as large as the code's, but its unused part is zero instead of undefined.
- Decimal.Sprint: the table of digit pairs is given by a formula for its entries.
- Server.Take: one connection; the server's list of them is not modelled, since connections share no state but the date text.
- Server.UserOk: answers are non-empty bytes; those of http_write_response always start with a status line.
- Queue.QueueConsumer.OnRead: in the class a read started by a callback is filled only after the batch has been handed over; module QueueRuns lets it be filled before.
- QueueRuns.TakeInv: the kernel moves whole elements, as the assertions of `queue.c:47` and `queue.c:143` say.
- Reactor.Take: a submitted entry belongs to the kernel at once; when it leaves the ring is the subject of module Ring alone.
- ReactorLoop.Loop.UserCode: callbacks may do any number of operations on live records, bounded by a number fixed beforehand so that the drain ends; whoever cancels passes the id that the operation returned.
- ReactorLoop.Loop.Run: follows the loop for a given number of turns, since nothing forces the kernel to complete what it holds.
- Allocation failure, the release of memory and pointer identity.
- The io_uring, mmap and eventfd system calls, the reading side of the completion ring, the individual reactor_* operations, and reactor_async with its thread.
- Files as streams (`stream.c:72-74`), which send the whole buffer again after a partial write.
- The SSE4.2 search; the portable code is modelled.
- The hash function: the map is proved for every hash.
- queue_producer_push_sync and queue_consumer_pop_sync, buffer_insert_fill, and the accessors.
- Accepting and closing of the server, its timer and the date text; list, vector, maps, notify, event, timer and resolver.
