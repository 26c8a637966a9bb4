# A model of dnstools

dnstools measures DNS servers. Its parts, as modelled here:

* **The stub server** (`mig/probe/server.c`) answers each query with one fixed address. Answers wait as framed
  records in a byte ring (`mig/probe/message_queue.c`) until the socket takes them: `MessageQueue`, `Answer`, `Server`.
* **The measuring client** (`mig/probe/main.c`) turns a text of domain names into wire names, prepares all queries in
  one buffer, sends them at a limited rate, and credits answers to queries by a 16-bit id that comes round every 65535
  queries: `Domains`, `Queries`, `Probe`, `IdReuse`, `RateLimit`.
* **The wire.** `Names` and `DnsMessage` define names, messages and a parser after RFC 1035 alone; `Codec` follows a
  query from the client through the server to that parser, and `Compression` any additional records.
* **The report generator** (`mig/analyser/grinder.py`) and **the search for the next limit**
  (`mig/analyser/preview.py`): `StableSort`, `InFlight`, `RateCurve`, `Delays`, `Preview`. `Measurement` joins the
  client to the report, and `Session` the stub server to the client.
* **The Go tools**: the connection pool and the stream of names of the DNS test tool (`dnstest/src`) in `TokenPool` and
  `QueryStream`, and the memory log (`mem/stats.go`) in `StatsLog`.

`Bytes` and `Arithmetic` are shared ground: bytes, native and network integers, `memcpy`, `strlen`, remainders.

Code that works in place on buffers, arrays and fields is modelled by classes and methods that do the same. Each is
proved against a function or predicate on values, and the theorems are about that value for all inputs, runs or
interleavings. Sizes are those of a 64-bit little-endian host. Clocks never go back. Python floats are reals, and
Python 2's `/` on ints is floor division.

## Where the code does less than one might expect

Each of these is kept as the code has it, with the exact condition under which the expected property holds.

* A blank line in the domain file leaves the source offset of `get_domains` behind, so that the first label of the next
  name is copied from as many bytes too early as there are blank lines before it, and starts with newlines instead
  (`Domains.Copies` is what the block then holds). The file is read right exactly when no name follows a blank line
  (`Domains.GetDomains`, `Domains.LoadAndPrint`; a text that is misread: `Domains.BlankLineMisread`).
* The block of names needs one byte more than `get_domains` allocates exactly when the text does not end with a newline,
  has no blank line, and has two bytes to a name (`Domains.AllocationBound`; such a text:
  `Domains.AllocationExceeded`).
* A NUL byte in the domain file ends a name early in `make_queries`, and what follows it is asked for as another name.
  The queries are for the lines of the file exactly when no name follows a blank line and the file has no NUL
  (`Codec.Prepare`; a file that is misread: `Codec.NulMisread`). The stub server answers them all the same
  (`Codec.AlwaysAnswered`).
* The stub server takes the first NUL behind the header for the end of the name, though a label may hold any octet. A
  question of type A with acceptable flags is answered as it should be exactly when no label has a NUL
  (`Answer.ReplyToQuery`, with the exact condition for the other messages too). A legal name that has the server put its
  record into the question: `Answer.NulMisleads`.
* The stub server moves additional records 16 bytes on without adjusting pointers. Names that need nothing but labels of
  their own and the question are read the same in the answer (`Compression.AdditionalKept`). A pointer to a name behind
  the question is read as a pointer to something else (`Compression.PointerMisread`).
* Labels of up to 255 bytes are accepted and sent, and the stub server answers them. The answer parses, in the sense of
  RFC 1035, to the question that was meant and its address exactly when the name keeps to the limits of section 2.3.4
  (`Codec.EndToEnd`; a family of names that do not: `Codec.LongLabel`). Beyond the limits it can be read as a message
  that nobody meant (`Codec.AnswerMisread`).
* One datagram that is shorter than a header, or that ends within its question, ends the stub server
  (`Server.ShortFails`), and so does a socket that cuts a message short (`Server.Serve`).
* The write interval is rounded by comparing the remainder with half a second rather than with half the limit, which
  means down for every limit up to 10^9. No second holds more queries than the limit exactly when the limit divides 10^9
  or exceeds it, or there are no more queries at all (`RateLimit.LimitKept`).
* The area under the rate curve is the number of messages only if there is a step, the last sample is later than the one
  before it, and the messages behind it end later still (`RateCurve.AreaIsExact`).
* A queue with as much free space as two frames can refuse a third (`MessageQueue.CapacityIsSharp`).
* `dnstest/README.md` calls the prefix of uncached names random. The code takes the request's count, and for that reason
  all names differ (`QueryStream.RequestsInTurn`).

## Model

| member | source | states |
|---|---|---|
| MessageQueue.FrameParts | mig/probe/message_queue.c:96-106 | from the first byte of a frame on, both lengths read back as they were written, and address and message lie where the reader looks for them |
| MessageQueue.FrameUnique | mig/probe/message_queue.c:33-49 | frames are a prefix code: two messages framed at one place are equal |
| MessageQueue.DecodingUnique | mig/probe/message_queue.c:86-111 | the bytes up to the wrap mark have only one reading as messages, with the mark in only one place |
| MessageQueue.RingUnique | mig/probe/message_queue.c:86-111 | the bytes of a whole ring with its head and its tail have only one reading as messages, before and behind the mark |
| MessageQueue.Queue.constructor | mig/probe/message_queue.c:8-24 | a new queue is valid and empty, with head and tail at its start |
| MessageQueue.Queue.EmptyExactlyWhenHeadIsTail | mig/probe/message_queue.h:4 | head equals tail exactly when nothing is queued |
| MessageQueue.Queue.PushToTheLimit | mig/probe/message_queue.c:29-52 | succeeds exactly when the frame ends strictly before the limit; writes that frame and no other byte, or nothing |
| MessageQueue.Queue.Push | mig/probe/message_queue.c:54-84 | succeeds exactly when the frame fits before the limit or, with a wrap, before the head; appends one message; a failure leaves the decoded contents as they were; no byte in use changes |
| MessageQueue.Queue.Get | mig/probe/message_queue.c:86-111 | finds the oldest message, across the wrap mark, fails exactly on an empty queue, and changes nothing |
| MessageQueue.Queue.Release | mig/probe/server.c:365 | moving the head to where Get said takes exactly the oldest message away |
| MessageQueue.CapacityGuarantee | mig/probe/message_queue.c:61-80 | in every reachable ring whose frames are at most M bytes, a frame of at most M bytes fits if the live bytes and 2M are less than the size |
| MessageQueue.CapacityIsSharp | mig/probe/message_queue.c:61-80 | a run after which live bytes and 2M equal the size, and the next push fails |
| Answer.MakeRefusedAnswer | mig/probe/server.c:78-85 | the buffer holds the query with the flags of a refusal |
| Answer.MakeAnswer | mig/probe/server.c:87-161 | fails exactly when the value function has no reply, and otherwise leaves that reply in the buffer |
| Answer.WriteHead | mig/probe/server.c:145-148 | header and question are the query's but for flags and answer count |
| Answer.FlagsMeaning | mig/probe/server.c:147 | the masks in terms of RFC 1035: opcode, RD and reserved bits kept, QR set, TC and RA clear; AA and code 0 in an answer, code 5 in a refusal; which flags are refused |
| Answer.ReplyCases | mig/probe/server.c:87-161 | for all bytes: which are an error, which are refused and which answered, and for both replies the size, id, flags and counts and all bytes behind the header |
| Answer.NameEnds | mig/probe/server.c:125 | strlen finds the end of an encoded name that has no NUL in a label |
| Answer.ReplyToQuery | mig/probe/server.c:87-161 | every message with one uncompressed question, of any name, and any bytes as additional records is answered with the A record spliced in behind the question, or refused unchanged but for its flags, as its flags and its type say, exactly under the stated condition on NULs; none is an error |
| Answer.NulMisleads | mig/probe/server.c:125 | a legal, answerable question that is answered with the A record in its middle |
| Codec.OptionsBytes | mig/probe/main.c:33-34 | the constant bytes and the client id are the encoding of one OPT record of RFC 6891 |
| Codec.PreparedIsQuery | mig/probe/main.c:77-115 | what the client prepares is the encoding of a message with one A question and that record, if any |
| Codec.PointerAt | mig/probe/server.c:153 | the name of the answer record resolves to the name of the question |
| Codec.AnsweredParses | mig/probe/server.c:145-158 | an answer parses to the same id, question and additional records and one A record for the name, exactly when the name is within the limits of RFC 1035 |
| Codec.EndToEnd | mig/probe/server.c:87-161 | for every query of the client: never refused, 16 bytes longer, and parsed as it should be exactly for names within the limits |
| Codec.AlwaysAnswered | mig/probe/server.c:87-161 | a query for any string that strlen can find in any block is answered, with the id, code 0 and one record more |
| Codec.StringsAreNames | mig/probe/main.c:61-67 | the strings in a block are the meant names exactly when these are what the block holds and none has a NUL |
| Codec.Prepare | mig/probe/main.c:721-768 | from any text to the buffer: accepted exactly when the text is within the size limit, has a name, and all labels have 1 to 255 bytes; the queries are for the lines split at dots, in turn, exactly when no name follows a blank line and no NUL is in the text |
| Codec.NulMisread | mig/probe/main.c:61-67 | a text that is accepted, and whose one line is asked for as two names |
| Codec.LongLabel | mig/probe/main.c:513-523 | every line of one label of 64 to 255 bytes is accepted, asked for and answered, and the answer does not parse to what was meant |
| Codec.AnswerMisread | mig/probe/server.c:145-158 | a family of accepted names whose answers parse, as a question for the root with a record of 257 bytes of the name |
| Compression.LabelsMoved | mig/probe/server.c:150-158 | a name that needs nothing but its own labels and the question is read the same in the answer, 16 bytes further on |
| Compression.AdditionalKept | mig/probe/server.c:150-158 | for a legal question and any additional records, compressed or not, whose names are all like that, the answer parses to the same question, one address and the same records |
| Compression.PointerMisread | mig/probe/server.c:150-158 | a message with a pointer behind the question, in whose answer a record has another name |
| Server.AnswersAre | mig/probe/server.c:307-312 | the messages queued for datagrams: one for each, to its sender, with the reply to its query |
| Server.RecvAll | mig/probe/server.c:290-332 | appends the answers to the datagrams taken, in order; gives up only on a broken socket, a query without a whole question, or a queue in which the answer does not fit |
| Server.Oldest | mig/probe/server.c:344-350 | what is handed to sendto is the oldest message |
| Server.SendAll | mig/probe/server.c:334-379 | sent messages followed by what is left are what was queued; a message leaves exactly when it was sent; ends when empty, blocked or failing |
| Server.Serve | mig/probe/server.c:450-541 | over any rounds, serving ends with the first round that fails, for the reason found in it, or earlier only with an answer that does not fit, which takes more than 1594 waiting; what was sent followed by what waits is the answers to the datagrams taken, in order, and how many were sent is what the rounds allow |
| Server.Drains | mig/probe/server.c:518-527 | a round in which the socket takes as many messages as wait empties the queue |
| Server.ShortFails | mig/probe/server.c:303 | a round with a datagram that has no whole header or no whole question fails |
| Server.BacklogFits | mig/probe/server.c:310-316 | with 100 MiB and at most 1594 answers waiting, the next one fits whatever the sizes |
| Domains.SplitJoins | mig/probe/main.c:454-523 | the reference meaning of lines and labels: pieces without the separator that join to the text |
| Domains.CopiedLabel | mig/probe/main.c:468-475 | what is copied for a label: after b blank lines, b newlines and the label cut to its size; it is right exactly when there were none |
| Domains.GetDomains | mig/probe/main.c:376-553 | accepts exactly the non-empty texts within the size limit whose labels have 1 to 255 bytes; the block holds exactly what blank lines make of the names, for every text; these are the names exactly when no name follows a blank line; the count is theirs |
| Domains.CopiesAre | mig/probe/main.c:478-483 | what the block holds has the shape of the names, and is the names exactly when no name follows a blank line |
| Domains.AllocationBound | mig/probe/main.c:433 | the block never exceeds its allocation by more than a byte, and exceeds it exactly under the stated condition |
| Domains.AllocationExceeded | mig/probe/main.c:433 | a text that is accepted and whose block is one byte longer than the allocation |
| Domains.PrintDomains | mig/probe/main.c:555-583 | the walk over a block finds exactly the names that were put into it |
| Domains.PrintName | mig/probe/main.c:565-577 | the inner loop of the walk finds the labels of one name and its end |
| Domains.LoadAndPrint | mig/probe/main.c:756 | reading and then printing gives the lines split at dots, in order, exactly when no name follows a blank line |
| Domains.BlankLineMisread | mig/probe/main.c:478-483 | a text that is accepted and misread, with the name that is read instead |
| Queries.NextString | mig/probe/main.c:61-67 | strlen ends string k of the block, and behind it is string k + 1 or, exactly after the last one, the end of the block |
| Queries.StepName | mig/probe/main.c:61-67 | strlen gives the size of the string, and the next one is the next of the block or the first again, for any block that ends with an empty string |
| Queries.MeasureQueries | mig/probe/main.c:59-68 | the first loop computes the exact size of all framed queries |
| Queries.WriteQuery | mig/probe/main.c:77-115 | one round of the second loop appends exactly one framed query |
| Queries.MakeQueries | mig/probe/main.c:53-119 | the new buffer holds exactly the framed queries, query i with id i mod 65535 and string i mod D of the block, and nothing more |
| Queries.QueryAt | mig/probe/main.c:75-116 | query i lies where the first i end, and the last one ends the buffer |
| Queries.GetNextQuery | mig/probe/main.c:121-130 | returns place and size of the query at the offset, and an offset behind it |
| Queries.TakeQueries | mig/probe/main.c:1019-1020 | count calls return the queries in order and end exactly at the end of the buffer |
| Probe.SlotIsFirst | mig/probe/main.c:219-235 | the search ends at a place with the id of its start, past no pair with that id that is unanswered and has an earlier time |
| Probe.Client.constructor | mig/probe/main.c:835-841 | only the answer counts and the receive times are initialised |
| Probe.Client.SentQuery | mig/probe/main.c:153-164 | stamps exactly the next pair and the next send time |
| Probe.Client.RecvOne | mig/probe/main.c:212-260 | one message changes the arrays as the value function says, or ends the program for an impossible id |
| Probe.Client.RecvAnswer | mig/probe/main.c:169-265 | the loop is a run over the messages there are |
| Probe.Client.TrySend | mig/probe/main.c:986-1047 | sends exactly when the limiter allows it, stamps the query with the clock read after sending, and keeps the time of the last query |
| Probe.Client.SendAndReceive | mig/probe/main.c:932-1056 | the first loop is a run over the wakeups it uses, and it uses them exactly as long as there is something left to send |
| Probe.Client.AwaitAnswers | mig/probe/main.c:1058-1114 | the second loop is a run, and it uses wakeups exactly as long as something is unanswered and fewer than 35 in a row were quiet |
| Probe.QuietWakeups | mig/probe/main.c:1058-1114 | the count of quiet wakeups reaches n exactly when the last n found the socket not readable |
| Probe.ReceiveBooked | mig/probe/main.c:204-258 | an arbitrary message keeps the bookkeeping, and so every index in range |
| Probe.RunBooked | mig/probe/main.c:169-265 | in every run under any answers: each pair answered at most once, the counter counts the answered pairs, receives holds their times as a multiset, in order, and then zeroes; sends are in order and equal to the pairs |
| Probe.RunSends | mig/probe/main.c:986-1046 | of any run, from its events alone: with which of them queries were sent, that each bears the clock read after its sending, that each was due, and that no chance was missed |
| Probe.RunUnlimited | mig/probe/main.c:988 | without a limit the send times are the stamps of the first chances to send, as many as there are queries |
| Probe.RunCredits | mig/probe/main.c:237-257 | every receive time is that of an answer, in order, credited to a pair of its own with the id of the answer |
| Probe.RunFails | mig/probe/main.c:212-217 | a run ends the program exactly when an answer has an id that no query can have |
| IdReuse.SearchStops | mig/probe/main.c:226-235 | the search passes the answered pairs with the id and stops at the first unanswered one |
| IdReuse.OldestOutstanding | mig/probe/main.c:226-235 | over an honest network that one has been sent, and strictly before now, even if another one was answered |
| IdReuse.CreditsInTurn | mig/probe/main.c:237-257 | an honest answer is credited to the oldest unanswered query with its id |
| IdReuse.HonestRun | mig/probe/main.c:169-265 | in every honest run, with every id the answered pairs are the first ones, as many as answers were delivered for it, none is dropped, none is credited to a query not sent before it, and the program does not fail |
| IdReuse.HonestCredit | mig/probe/main.c:237-257 | the last answer of an honest run went to the oldest unanswered query with its id |
| Measurement.WrittenLater | mig/probe/main.c:1167-1211 | the pairs that are written have their answers after their queries when the client's pairs do |
| Measurement.LostAreUnanswered | mig/probe/main.c:1118-1121 | pairs written without an answer and answered pairs are all pairs |
| Measurement.WrittenAt | mig/probe/main.c:1167-1211 | what is written of each pair gives its times back, and their difference |
| Measurement.HonestCurve | mig/probe/main.c:1167-1211 | the in-flight curve drawn of any honest run is never negative, and its last running total is the number of lost messages that the client reports |
| Measurement.HonestDelays | mig/analyser/grinder.py:234-237 | the histogram of any honest run is of how long each answered query took: the same numbers, as many as answers |
| Measurement.SendingArea | mig/analyser/grinder.py:502 | for any finished run, the area under the sending rate; with a limit it is all queries, or all but one without a step |
| Measurement.ReceivingArea | mig/analyser/grinder.py:126 | for any honest run, leaving out the zeros leaves exactly the times of the answered pairs, and the area under the receiving rate counts them |
| Session.ServedKeepsIds | mig/probe/server.c:145-148 | the id that the client reads from a reply of the stub server is the id of the query |
| Session.ServedRun | mig/probe/main.c:169-265 | against the stub server, over a network that makes nothing up and repeats nothing, every run of the client is honest: it does not fail, and credits every answer in turn |
| RateLimit.RunSpaced | mig/probe/main.c:986-1046 | in every run each query follows the one before by at least the interval |
| RateLimit.SpacedApart | mig/probe/main.c:1009-1014 | query j is at least (j - i) intervals after query i |
| RateLimit.WindowBound | mig/probe/main.c:986-1046 | in every run, any time w holds at most w / interval + 1 queries |
| RateLimit.SpacedIsRun | mig/probe/main.c:986-1046 | conversely all spaced times are those of a run |
| RateLimit.LimitKept | mig/probe/main.c:761-766 | every second of every run holds at most limit queries exactly when the limit divides 10^9 or exceeds it, or there are no more queries than that |
| RateLimit.IntervalExactly | mig/probe/main.c:761-766 | the interval is the longest with which the limit fits into a second, or a nanosecond beyond the resolution of the clock |
| RateLimit.LimitReached | mig/probe/main.c:761-766 | some run sends as many queries as the limit within one second |
| StableSort.SortIsStable | mig/analyser/grinder.py:297 | the sort is in order, a permutation, and keeps the order of items with equal keys |
| StableSort.StableIsUnique | mig/analyser/grinder.py:297 | these properties determine the result |
| InFlight.MakeCounter | mig/analyser/grinder.py:289-295 | the list of marks of all pairs |
| InFlight.MakeQueue | mig/analyser/grinder.py:285-324 | the points are the chunk means of the running totals over the sorted marks; fails exactly for many pairs that are all empty |
| InFlight.NeverNegative | mig/analyser/grinder.py:297-303 | with no answer before its query no running total is negative |
| InFlight.EndsWithUnanswered | mig/analyser/grinder.py:300-303 | the last running total is the number of unanswered pairs |
| InFlight.InFlightAt | mig/analyser/grinder.py:297-303 | behind the last mark of any time the running total is the number of queries sent by then less those answered by then |
| InFlight.MeansConserve | mig/analyser/grinder.py:304-322 | chunk size times mean sums to all running totals and to all times, and means of totals that are not negative are not |
| InFlight.MeansAt | mig/analyser/grinder.py:304-322 | point i is the mean of chunk i in both coordinates, and there are as many points as chunks |
| InFlight.QueueCurve | mig/analyser/grinder.py:285-324 | the three together for the curve of any pairs |
| RateCurve.RateLoop | mig/analyser/grinder.py:184-204 | the loop of both branches computes the windows |
| RateCurve.MakeRate | mig/analyser/grinder.py:179-210 | the points of the curve, and failure exactly for no timestamps |
| RateCurve.StridedSize | mig/analyser/grinder.py:197 | how many samples there are and how many messages behind the last |
| RateCurve.StridedAt | mig/analyser/grinder.py:197 | sample i is timestamp number (i + 1) * step |
| RateCurve.SampleCount | mig/analyser/grinder.py:181 | a curve with a step has 25 to 37 samples beside a fit and 500 to 750 otherwise, and when there is one |
| RateCurve.RatesArea | mig/analyser/grinder.py:184-204 | the windows recovered from the points follow on each other, and rate times width counts every sample but those left over |
| RateCurve.RatesEnd | mig/analyser/grinder.py:184-204 | left over are exactly the samples equal to the last |
| RateCurve.RateWindows | mig/analyser/grinder.py:184-208 | each window ends at the next later sample and counts exactly the samples at its left edge |
| RateCurve.RateArea | mig/analyser/grinder.py:179-210 | for timestamps in order, the messages under the whole curve |
| RateCurve.AreaIsExact | mig/analyser/grinder.py:194-208 | when that is all of them |
| RateCurve.StrictArea | mig/analyser/grinder.py:179-210 | for timestamps that never repeat, the area is all messages with a step, and all but one without |
| Delays.DropNonPositive | mig/analyser/grinder.py:236-237 | drops the leading delays that are not positive |
| Delays.SlotFrom | mig/analyser/grinder.py:251-253 | the search for a bucket ends at the first bound that is not exceeded, or at the last bucket |
| Delays.Bucketing | mig/analyser/grinder.py:244-255 | the single pass with a moving index puts each delay where a search from the start would |
| Delays.SlotsPartition | mig/analyser/grinder.py:250-255 | the bucket sizes sum to the number of delays |
| Delays.Trim | mig/analyser/grinder.py:257-263 | trimming drops only empty buckets, and all of them at both ends |
| Delays.DrawBuckets | mig/analyser/grinder.py:265-272 | one point a bucket, and one step point for each with more than one delay |
| Delays.Normalise | mig/analyser/grinder.py:274-281 | the heights scaled by the highest |
| Delays.NormalisedWithin | mig/analyser/grinder.py:279-281 | all heights are within 0 to 100, and 100 is reached unless all are 0 |
| Delays.BoundsRise | mig/analyser/grinder.py:240-246 | the 500 bounds made from the logarithms of the first and the last delay rise, and no delay exceeds the last |
| Delays.ExponentsEven | mig/analyser/grinder.py:242-246 | the exponents of the 500 bounds are evenly spaced, up to the last |
| Delays.BucketSizes | mig/analyser/grinder.py:234-255 | each bucket holds as many delays as there are pairs whose third number is positive and between its bounds, counted over the pairs |
| Delays.DrawnBuckets | mig/analyser/grinder.py:265-281 | a bucket of one or none is drawn at its bound and flat, the others at the mean of their delays, with heights in proportion to their sizes |
| Delays.StepPointSpread | mig/analyser/grinder.py:269-270 | a step point is at the mean of its bucket, as high as its delays are apart |
| Delays.MakeProcessing | mig/analyser/grinder.py:230-283 | the whole histogram over the bounds made of its own delays: right buckets, no delay trimmed away, normalised points |
| Delays.Histogram | mig/analyser/grinder.py:230-283 | buckets hold as many delays as there are positive ones, each of them above the bound before and up to the bound of its bucket; heights within 0 to 100 |
| TokenPool.StartKept | dnstest/src/data.go:48-50 | the pool starts with exactly one nil token a client, every worker idle, and the invariant |
| TokenPool.ActKept | dnstest/src/data.go:105-123 | every step of any worker keeps tokens, places of connections and seeds |
| TokenPool.RunKept | dnstest/src/data.go:105-123 | so does every interleaving |
| TokenPool.NeverStuck | dnstest/src/data.go:105-123 | returning a token never blocks, an open connection is in exactly one place and a closed one in none, and some step can always be taken |
| TokenPool.ClosedForGood | dnstest/src/data.go:105-123 | a connection that is closed at some moment of a run is never again open or in the pool |
| TokenPool.OpenUntilFailure | dnstest/src/data.go:116-121 | in any run, a connection is open exactly when it was dialled and no exchange by the worker that held it has failed |
| TokenPool.ExchangeEnds | dnstest/src/data.go:115-121 | after a failed exchange the worker returns nil and the connection is closed and nowhere; after one that succeeds it returns the connection, open and nowhere else |
| TokenPool.DialEnds | dnstest/src/data.go:107-113 | after a failed dial the worker returns nil; after one that succeeds it has a new open connection |
| TokenPool.RunExchanges | dnstest/src/data.go:79-82 | no two exchanges are of one request |
| TokenPool.FirstInFirstOut | dnstest/src/data.go:105-122 | in any run, tokens leave the channel in the order in which they came in, the nil tokens of the start first |
| QueryStream.DecimalValue | dnstest/src/msg.go:58 | decimal notation reads back |
| QueryStream.UncachedDistinct | dnstest/src/msg.go:54-59 | uncached names with different seeds differ, whatever the domains |
| QueryStream.SeedsUseInTurn | dnstest/src/msg.go:55-56 | how often each domain is used by the first N seeds |
| QueryStream.RequestsInTurn | dnstest/src/data.go:79-82 | after any interleaving, N requests have asked N/D times, or once more, in each of D different domains, counted by the names that were asked, cached or not; and all uncached names are distinct |
| StatsLog.MinOf | mem/stats.go:104-107 | a sample of the batch with the least allocation |
| StatsLog.MaxOf | mem/stats.go:109-112 | a sample of the batch with the greatest allocation |
| StatsLog.ExtremesAreFirst | mem/stats.go:103-113 | of samples with equal allocation the first one counts |
| StatsLog.Points.constructor | mem/stats.go:95-101 | no sample yet |
| StatsLog.Points.Set | mem/stats.go:103-113 | the extremes of the batch with the new sample |
| StatsLog.Points.Write | mem/stats.go:115-128 | writes the extremes in order of time, once if they are one sample, and starts a new batch |
| StatsLog.Log | mem/stats.go:44-83 | the log is the summaries of the closed batches |
| StatsLog.CutExactly | mem/stats.go:76-81 | batches are the samples cut exactly at the first sample after a collection or more than ten seconds after the last cut |
| StatsLog.SummaryCovers | mem/stats.go:103-124 | written points are samples of the batch, and the allocation of every sample is between theirs |
| StatsLog.LogAscends | mem/stats.go:44-83 | with growing sample times the times in the log strictly grow, over all batches |
| StatsLog.LogHolds | mem/stats.go:44-83 | the log holds the extremes of every closed batch, and only samples |
| Preview.ComputeRateRound | mig/analyser/preview.py:45-51 | the loop ends and computes the rounding |
| Preview.RoundMonotone | mig/analyser/preview.py:45-51 | rounding keeps the order |
| Preview.RoundIdempotent | mig/analyser/preview.py:45-51 | rounding twice is rounding once |
| Preview.RoundNear | mig/analyser/preview.py:45-51 | off by at most 5 percent from 10 on |
| Preview.RoundExactly | mig/analyser/preview.py:45-51 | the result is m with k zeros, where m is at most 100, k the least for that, and m the nearest number, halves away from zero |
| Preview.ProposedIsRounded | mig/analyser/preview.py:69 | what is proposed satisfies what the next call expects of its limits |
| Preview.ChooseNext | mig/analyser/preview.py:63-69 | the next limit is within the chosen half of the bracket |

## Left out

* Sockets, `pselect`, `fcntl`, signals, clocks, files, JSON and memory exhaustion: what they return is a parameter of
  the methods, and a failure that ends the program ends the run.
* Timestamps of the server and their dump, the stop character on its standard input, option parsing and logging.
* Overflow of pointers and of `size_t`: pointers are indices into their buffers, and a size fits 64 bits.
* TokenPool.ActKept: the worker loop is modelled as steps of a state machine, not as a loop, because the workers run
  concurrently; round-trip times and deadlines are not part of a step.
* Delays.MakeProcessing: `math.pow(10, x)` is any function that rises and is right for whole numbers; nothing more is
  known of it. `math.log10` is only used for whole results, which are computed exactly.
* InFlight.MakeQueue, RateCurve.MakeRate, Delays.MakeProcessing, Preview.ComputeRateRound: do not model the rounding of
  floating point.
* Domains.GetDomains: the output is a growing sequence rather than the allocated array, so that writing one byte behind
  the allocation has a meaning; Domains.AllocationBound says when that happens.
* Answer.MakeAnswer: measures the name within the query; a NUL that `strlen` finds behind it leads to the same error.
* Compression.AdditionalKept: one direction only, because a pointer elsewhere can, by coincidence, be read the same.
* Probe.Client.RecvAnswer: a message shorter than a header ends the program, as a failing socket does, and with it the
  run.
* Server.RecvAll: datagrams of at most 65507 bytes, the most that UDP over IPv4 can deliver, so that an answer fits the
  send buffer; the count of received messages is not kept.
* StatsLog.Points.Set: a heap of 2^64 - 1 bytes, the value that marks an empty batch, is not a sample.
* `make_count`, `make_total_processing`, `load`, the fits and everything that builds HTML in `grinder.py`, and
  `preview.py`'s fit: easy or opaque.
* `loadData`, `randIP`, the ECS option and the DNS library calls in `dnstest`; `log.go`, `prof.go` and `signal.go` in
  `mem`.
