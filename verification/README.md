# A verified model of the API gateway

The gateway is an HTTP/1.1 reverse proxy: a kqueue reactor thread, a pool of worker threads, a
parser and two printers for HTTP messages, a router, a rate limiter, an upstream connection pool, a
JSON escaper, a middleware chain and an asynchronous logger. This project models their logic in
Dafny and proves what the code promises about it.

Two forms recur. Code that several threads run at once is a state machine: a state, the events that
threads, the kernel or the clock may contribute, when each is possible and what it does. Every
interleaving is a run of that machine, and the results hold in all runs. Beside each machine stands a
class with the fields and loops of the source. For the rate limiter, the reactor, the logger and the
worker pool each method of that class is shown to take exactly the steps of the machine that the
results of its system calls ask for. The classes for upstream connections (`PoolCode`, `HttpClient`,
`ProxyManager`) are proved against the list functions that the machine in `UpstreamSockets` uses as
well, and against which sockets are open and in use; their contracts do not name its events.
Sequential code is a method or a class proved against a specification function, and the function's
properties are lemmas.

| files | what they model |
|---|---|
| `RateLimiter`, `TokenBucket` | the lock-free token bucket, one step per atomic operation, and its loops |
| `Text`, `Http`, `RequestParser`, `ResponseParser`, `HttpResponse`, `Proxy` | HTTP framing, both parsers, all three printers and the header rewriting of the proxy |
| `Characters`, `FieldGrammar`, `RequestGrammar`, `ResponseGrammar` | what the parsers accept and how they answer everything else, told from the bytes, apart from the parsers' own functions |
| `Reactor`, `ReactorRuns`, `HandlerLoops`, `HandlerEffects`, `Gateway` | reactor, workers and completion queue as a protocol; its invariants and runs; the handlers' loops, what they leave behind, and their code |
| `RouteTable`, `RouteOrder`, `RouteReach`, `RouteShadow`, `RouteLater`, `Paths`, `Router` | the route trie against the flat set of routes, when a route is found, what a failed registration leaves; the trie of linked nodes |
| `Utf8`, `JsonEscape` | the UTF-8 recogniser and the JSON escaper against RFC 3629 and RFC 8259 |
| `AsyncLogger`, `LoggerCode` | the double-buffered logger, its machine and its code |
| `ThreadPool`, `ThreadPoolCode` | the worker pool, its machine and its code |
| `ConnectionPool`, `UpstreamSockets`, `SocketStream`, `PoolCode`, `ClientLoops`, `HttpClient`, `ProxyManager` | idle connections, who owns an upstream socket, whose answer is read from it, the client's states and `forward` |
| `Middleware` | the middleware chain |
| `SocketCalls`, `Counting`, `Wrappers` | results of socket calls; counting occurrences; Option and Result |

Conventions. A `char` stands for one byte of an HTTP message; JSON and UTF-8 use numbers below 256. A
header map is a list of fields with distinct names, and every loop over one visits it in an order
given by an arbitrary permutation, so each result holds for every iteration order. An order that the
parser consults (`findHeader`) is a parameter too. Exceptions are values of a result type. Clocks,
socket results, the health probe and spurious compare-exchange failures are inputs. A client
generation in the reactor model, or a thread's program counter, is bookkeeping that no code reads.

## What the proofs found

* The rate limiter's plain bound, capacity plus rate times elapsed time, holds in all runs exactly
  when the rate divides 10^9; above 10^9 the multiples of it meet the bound while no product wraps, and
  no others (`RateLimiter.PlainBoundIffExactRate`). The shipped rate of 250 per second divides it. Other
  rates up to 10^9 obey the weaker bound of `RateLimiter.GrantedBound`. Above 10^9 an inexact rate has
  no bound at all: a refill may credit a token and consume no time, so that any number of tokens can be
  granted within one nanosecond (`RateLimiter.UnboundedInOneNanosecond`, `RateLimiter.BoundedIffRate`).
* Two byte strings have the same escaped form if and only if they differ at most in the values of bytes
  that belong to no UTF-8 encoding (`JsonEscape.EscapeEqualIff`). So the escaped form of a string belongs
  to no other string if and only if the string is well-formed (`JsonEscape.EscapeInjectiveIff`).
* Matching does not go back. A registered route is found for a path that fits it if and only if no
  registered pattern follows it up to one of its parameters and has the path's segment there as a
  literal (`RouteReach.RegisteredRouteFoundIff`). With `/a/x` and `/:p/y` registered, `/a/y` is not found
  (`RouteReach.StaticSiblingHidesRoute`).
* A registration that fails because of an unnamed `:` segment may leave nodes behind. They may hide
  routes that were found before (`RouteShadow.UnnamedRejectionIff` says exactly when,
  `RouteShadow.FailedRegistrationHidesRoute` gives an example), and they may make later registrations
  fail (`RouteLater.LaterOutcomesIff`, `RouteLater.FailedRegistrationBlocksRoute`). Even one that does
  neither may be noticed later: after a failed `/a/:` on an empty router every match and every next
  registration is as before, but once `/:p/y` is registered, `/a/y` is not found
  (`RouteLater.NoticedLater`). Such a failure is never noticed, whatever is registered and matched later,
  if and only if it created no node (`RouteLater.NeverNoticedIff`), that is, if and only if the node of
  the segments in front of the unnamed one was there already (`RouteLater.NothingCreatedIff`).
* An oversized header section is answered with 414 instead of 431 when the reads stopped inside a
  request line that was already too long. `RequestParser.ChunkIndependence` gives the exact condition
  and `RequestParser.LongLineMasksLargeHeader` four such reads.
* A response that the client would accept as a whole is rejected for some sequences of reads exactly
  when its header section, with its blank line, is over 32 KiB by two bytes or more, or the response
  is over the size limit (`ResponseParser.ReceiveChunkIndependence`); reads of at most 16 KiB that stop
  just before the end of the section do it (`ResponseParser.OvergrownHeader`).
* An upstream answer that does not end where the client takes its body to end, such as a chunked one,
  leaves bytes behind. If they arrive after the socket has been leased again, the next call reads
  them as the beginning of its own answer. Every call on a pooled socket reads its own answer,
  whatever the reads, if and only if no answer that the socket is kept for does that
  (`SocketStream.OwnAnswersIff`, `SocketStream.NextCallReadsLeftover`,
  `SocketStream.OtherFramingIsUnframed`). If what is left behind is a response itself, the next call is
  given it in place of its own (`SocketStream.NextCallDelivers`): two plain answers sent for one request
  are delivered to two calls (`SocketStream.TwoAnswersForOne`).
* `statusFromWire` reads three digits, so an upstream status of four digits, which the client accepts,
  is not what middlewares see (`Proxy.FourDigitStatusIsCut`); `Proxy.StatusFromDownstream` says for which
  statuses it is.
* In the writer's last round the logger answers a pending flush only if nothing was logged meanwhile
  (`AsyncLogger.FlushAnsweredIff`).
* The guards at the top of the reactor's handlers (connection unknown, or already awaiting) are never
  needed (`ReactorRuns.NothingStale`).

## Model

| member | source | states |
|---|---|---|
| RateLimiter.RefillRounding | apigateway/src/RateLimiter.cpp:35-47 | One refill that credits t tokens consumes d nanoseconds with r*d <= t*10^9 <= r*d + (r-1), never more time than has passed, and no remainder at all at a rate that divides 10^9, even if its product wraps; if it does not, less than a token of time stays uncredited and a multiple of 10^9 leaves no remainder either |
| RateLimiter.StampMovesOn | apigateway/src/RateLimiter.cpp:49-53 | The successful compare-exchange on the timestamp keeps the invariant: the credit it creates is in flight until the second compare-exchange |
| RateLimiter.CreditStepKeepsInv | apigateway/src/RateLimiter.cpp:53-66 | The loop that adds the credit keeps the invariant whether its compare-exchange fails, fails spuriously or succeeds |
| RateLimiter.SpendStepKeepsInv | apigateway/src/RateLimiter.cpp:79-92 | The loop that spends tokens keeps the invariant |
| RateLimiter.StepKeepsInv | apigateway/src/RateLimiter.cpp:19-93 | Every atomic step of every thread, with stale loads and spurious failures, keeps the invariant of the bucket |
| RateLimiter.RunKeepsInv | apigateway/src/RateLimiter.cpp:19-93 | The invariant holds in every interleaving of any number of threads, also where 64-bit operations wrap; at a rate that divides 10^9 credit and consumed time match exactly |
| RateLimiter.RunCatchesUp | apigateway/src/RateLimiter.cpp:26-69 | In every interleaving in which no product wraps, a thread behind its refill finds credited all that its reading is worth |
| RateLimiter.GrantedBound | apigateway/src/RateLimiter.cpp:29-93 | In every run, tokens granted are at most capacity + rate*elapsed/(10^9 - rate + 1) if the rate is at most 10^9, and at most capacity + rate*elapsed/10^9 if it divides 10^9, or is a multiple of it and no product wraps |
| RateLimiter.BoundedIffRate | apigateway/src/RateLimiter.cpp:35-53 | Over the runs in which no product wraps, a non-empty bucket grants a bounded number of tokens in any bounded time if and only if the rate is at most 10^9 or a multiple of it |
| RateLimiter.UnboundedInOneNanosecond | apigateway/src/RateLimiter.cpp:44-47 | At any other rate a run, in which nothing wraps, grants any number of tokens within one nanosecond of the start |
| RateLimiter.PlainBoundIffExactRate | apigateway/src/RateLimiter.cpp:29-67 | At a rate up to 10^9 the plain bound holds in all runs if and only if the rate divides 10^9; at any rate it holds in the runs in which no product wraps if and only if the rate divides 10^9 or is a multiple of it; otherwise a run that exceeds it is constructed |
| RateLimiter.Conservation | apigateway/src/RateLimiter.cpp:26-69 | Tokens in the bucket, granted, in flight and cut off by the cap add up to the capacity plus all credit; the bucket never holds more than its capacity |
| RateLimiter.CreditLandsIff | apigateway/src/RateLimiter.cpp:53-66 | The exchange that adds the credit leaves the old level plus the credit, cut off at the capacity, if and only if that sum fits into 64 bits |
| RateLimiter.LostOnlyWhenFull | apigateway/src/RateLimiter.cpp:55-58 | A step in which credit is cut off leaves a full bucket, and exactly what does not fit is lost, unless the sum overflows 64 bits |
| RateLimiter.StampMonotone | apigateway/src/RateLimiter.cpp:44-53 | The refill timestamp never goes back and is never ahead of the clock |
| RateLimiter.RefillCatchesUp | apigateway/src/RateLimiter.cpp:26-69 | While no product wraps, when a refill that read `now` returns, at least floor(rate*(now - start)/10^9) has been credited, and exactly that at an exact rate when nobody read later |
| RateLimiter.NoRefillBound | apigateway/src/RateLimiter.cpp:22-24 | With a zero refill rate no more than the initial capacity is ever granted |
| TokenBucket.Limiter.DoRefill | apigateway/src/RateLimiter.cpp:19-70 | For a thread that no other interrupts: the nested loops, with any pattern of spurious failures, are steps of the machine, and the bucket gains floor(elapsed*rate/10^9) tokens up to its capacity and its stamp moves by the time they take, as long as neither product nor sum overflows |
| TokenBucket.Limiter.TryAcquire | apigateway/src/RateLimiter.cpp:72-93 | For a thread that no other interrupts: a call grants exactly when the cost is at most min(capacity, tokens + floor(elapsed*rate/10^9)) and then takes exactly the cost; a refusal takes nothing |
| TokenBucket.RefillAddsDue | apigateway/src/RateLimiter.cpp:35-66 | One refill adds what the time since the stamp is worth, up to the capacity, as long as neither product nor sum overflows |
| Utf8.SequenceLengthIffEncoded | apigateway/src/JsonEscape.cpp:18-61 | The recogniser returns n > 0 exactly when the n bytes there are the UTF-8 encoding of a scalar value at or above U+0080 |
| Utf8.RecognisedIsEncoded | apigateway/src/JsonEscape.cpp:24-61 | What is recognised decodes to a scalar value whose encoding it is: no overlong form, surrogate, value over U+10FFFF or truncation |
| Utf8.EncodedIsRecognised | apigateway/src/JsonEscape.cpp:24-61 | The encoding of every such scalar value is recognised with its full length |
| Utf8.EncodingUnique | apigateway/src/JsonEscape.cpp:22-23 | No two encodings of scalar values start at the same place, so the sequence found is the only one |
| Utf8.RepairIdentityIffWellFormed | apigateway/src/JsonEscape.cpp:89-96 | Replacing stray bytes leaves a byte string alone if and only if it is well-formed UTF-8 |
| JsonEscape.AppendJsonEscaped | apigateway/src/JsonEscape.cpp:65-100 | The loop appends the escaped form of the whole input to the buffer and changes nothing in front of it |
| Utf8.RepairReplacesStray | apigateway/src/JsonEscape.cpp:89-96 | Scanning from the left replaces exactly the bytes that belong to no UTF-8 encoding anywhere in the string |
| Utf8.NoOverlap | apigateway/src/JsonEscape.cpp:18-61 | Two encodings in one string never overlap |
| Utf8.WellFormedIffCovered | apigateway/src/JsonEscape.cpp:18-61 | A byte string is well-formed UTF-8 if and only if each of its bytes belongs to an encoding somewhere in it |
| JsonEscape.EscapeRoundTrip | apigateway/src/JsonEscape.cpp:65-100 | For every byte string the escaped form is a JSON string body and a JSON string decoder maps it to the input as the scan from the left repairs it |
| JsonEscape.EscapeReplacesStray | apigateway/src/JsonEscape.cpp:65-100 | That is the input with each byte replaced by U+FFFD if and only if it belongs to no UTF-8 encoding anywhere in the string |
| JsonEscape.EscapeIsWellFormed | apigateway/src/JsonEscape.cpp:65-100 | The escaped form is well-formed UTF-8 |
| JsonEscape.NoControlBytes | apigateway/src/JsonEscape.cpp:84-88 | The escaped form holds no control character and no DEL |
| JsonEscape.AsciiForms | apigateway/src/JsonEscape.cpp:70-88 | Quote, backslash and five control characters have their short forms, the other control characters and DEL become a code unit with lower-case digits, all else below 0x80 stays |
| JsonEscape.EqualFormsEqualTokens | apigateway/src/JsonEscape.cpp:65-100 | The encodings and stray bytes that the loop meets, in order, and the escaped form determine each other, all stray bytes being alike |
| JsonEscape.EscapeEqualIff | apigateway/src/JsonEscape.cpp:65-100 | Two inputs have the same escaped form if and only if they have the same length and differ at most in the values of bytes that belong to no UTF-8 encoding |
| JsonEscape.EscapeInjectiveIff | apigateway/src/JsonEscape.cpp:65-100 | The escaped form of an input belongs to no other input if and only if the input is well-formed UTF-8 |
| JsonEscape.StrayBytesCollide | apigateway/src/JsonEscape.cpp:89-91 | An instance: two different stray bytes are escaped alike |
| Text.FindResumes | apigateway/src/ApiGateway.cpp:511-516 | Searching for a terminator may resume three bytes before the end of a part that had none |
| Text.TerminatorOfBlock | apigateway/src/ApiGateway.cpp:544-547 | In a printed header block the first blank line found is the one that closes it |
| Text.LinesOfBlock | apigateway/src/ApiGateway.cpp:599-626 | Splitting a printed block at line ends gives the lines it was printed from |
| Text.DecRoundTrip | apigateway/src/ApiGateway.cpp:637-638 | Printing a number in decimal and reading it back gives the number |
| Text.TrimView | apigateway/src/ApiGateway.cpp:133-143 | The two index loops return the stretch without white space at either end |
| Text.CaseInsensitiveEquals | apigateway/src/ApiGateway.cpp:483-494 | The loop decides equality up to the case of ASCII letters |
| Characters.SameNameIff | apigateway/src/ApiGateway.cpp:483-494 | Names are equal for the comparison exactly if they differ at most between an upper-case ASCII letter and the same letter in lower case |
| Characters.TrimIff | apigateway/src/ApiGateway.cpp:133-143 | Trimming gives exactly the stretch without white space, codes 9 to 13 and 32, at its ends and nothing else around it |
| Characters.NextDigit | apigateway/src/ApiGateway.cpp:637-638 | A digit behind a decimal number multiplies its value by ten and adds |
| FieldGrammar.MalformedIff | apigateway/src/ApiGateway.cpp:606-618 | A header line is refused exactly if it is not empty and has no colon or nothing but white space before its first one |
| FieldGrammar.DeclaresIff | apigateway/src/ApiGateway.cpp:606-618 | A header line gives the field whose name and value are what stands before and behind its first colon without white space around |
| FieldGrammar.FieldsFolded | apigateway/src/ApiGateway.cpp:599-626 | The fields are exactly the first declarations of their names |
| FieldGrammar.LengthFound | apigateway/src/ApiGateway.cpp:496-504 | The value that decides the length is that of a first declaration called Content-Length in any case, in every map order, and there is none only if no line declares one |
| Http.HeaderLines | apigateway/src/ApiGateway.cpp:599-626 | The loop over `lineStart` collects the same fields as folding over all lines: empty lines are skipped, the first of equal names stays, a malformed line fails |
| Http.FieldLinesParse | apigateway/src/ApiGateway.cpp:602-626 | Printed header lines with distinct names are read back as the same fields with trimmed values |
| Http.WireSplits | apigateway/src/HttpResponse.cpp:140-168 | A printed message splits at its first blank line into the lines and the body it was printed from |
| RequestParser.TryParseRequest | apigateway/src/ApiGateway.cpp:540-657 | The parser as written computes the outcome that `RequestGrammar.EveryAnswer` tells from the bytes |
| RequestGrammar.EveryAnswer | apigateway/src/ApiGateway.cpp:540-657 | For every byte string and map order, exactly when the parser waits for the terminator, refuses with 431 (section over 32 KiB), 414 (first line over 8 KiB), 400 (no method name, blank, target with a leading slash, blank; or a malformed header line; or a length that is not all digits) or 413 (length over 10 MiB), waits for the body, or accepts, checked in that order |
| RequestGrammar.RequestLineIff | apigateway/src/ApiGateway.cpp:563-586 | Within its limit a first line is accepted exactly if it is one of the seven method names, a blank, a target without blanks that starts with a slash, a blank, and any rest |
| RequestGrammar.DispatchedRequest | apigateway/src/ApiGateway.cpp:579-657 | An accepted request has the method, path and query of its first line, as fields the first declarations of their names, and as body the bytes behind the header section |
| RequestParser.MakeRequest | apigateway/src/ApiGateway.cpp:99-118 | The owned request cut out of the buffer by offsets is the one the views described |
| RequestParser.OwnedRequest | apigateway/src/ApiGateway.cpp:418-454 | Offsets computed from the views, with their dummy values for an empty query or body, rebuild the parsed request |
| RequestParser.Connection.HasEnoughBytesToParse | apigateway/src/ApiGateway.cpp:506-525 | The gate decides as specified and records how far it has searched |
| RequestParser.Connection.OnBytes | apigateway/src/ApiGateway.cpp:395-462 | One read brings the connection to the verdict and state specified for the bytes so far |
| RequestParser.TryParseExtends | apigateway/src/ApiGateway.cpp:540-657 | Bytes behind a complete header section change nothing but how much of the body is there |
| RequestParser.VerdictOfStream | apigateway/src/ApiGateway.cpp:392-478 | What becomes of a byte stream is a function of the stream and of whether some read ended inside an overlong request line |
| RequestParser.ChunkIndependence | apigateway/src/ApiGateway.cpp:506-657 | For a stream with a header terminator, reading in chunks gives the verdict of parsing the whole at once, with the same method, path, query, headers and body, if and only if it is not the case that the section is over its limit and a long line was seen early |
| RequestParser.LongLineMasksLargeHeader | apigateway/src/ApiGateway.cpp:518-523 | Four reads of at most 16 KiB that are rejected with 414, while parsing the whole at once refuses it with 431 |
| ResponseParser.TryParseResponse | apigateway/src/HttpClient.cpp:299-404 | The parser as written computes the specified outcome, including a missing reason, a missing Content-Length and every malformed case |
| ResponseGrammar.EveryJudgement | apigateway/src/HttpClient.cpp:299-404 | For every byte string and map order, exactly when the client waits, calls the response malformed (no status line with a decimal code that fits an int, a malformed header line, a length that is empty, not all digits or over 10 MiB, or an unfinished section over 32 KiB) or complete, and what a complete response holds |
| ResponseGrammar.StatusLineIff | apigateway/src/HttpClient.cpp:317-344 | A status line is accepted exactly if behind its first blank stands a decimal code that fits an int, up to a second blank or the end |
| ResponseParser.StrictPrefix | apigateway/src/HttpClient.cpp:299-307 | On every strict prefix of a message the parser waits, unless the header section has outgrown 32 KiB |
| ResponseParser.ReceiveChunkIndependence | apigateway/src/HttpClient.cpp:235-295 | Every sequence of reads of 1 to 16384 bytes that make up a message ends in the same complete response if and only if its header section, with its blank line, is at most one byte over 32 KiB and the whole within the size limit |
| ResponseParser.OvergrownHeader | apigateway/src/HttpClient.cpp:302-307 | For a larger section, reads of at most 16384 bytes under which receiving fails |
| HttpResponse.HttpResponse.SetStatus | apigateway/src/HttpResponse.cpp:96-106 | Accepts exactly 100 to 599 with a reason free of CR, LF and NUL; a refused call changes nothing |
| HttpResponse.HttpResponse.SetHeader | apigateway/src/HttpResponse.cpp:108-124 | Accepts exactly valid names and values, replaces the value of a name that is there up to case, appends otherwise, and keeps names unique |
| HttpResponse.HttpResponse.ToBytes | apigateway/src/HttpResponse.cpp:131-169 | The bytes written are the specified message, whose fields `HttpResponse.SentIff` tells one by one |
| HttpResponse.SentIff | apigateway/src/HttpResponse.cpp:140-165 | The fields sent are exactly the length of the body, the fields set except one called Content-Length in any case, and `Connection: close` if none of those set is called Connection in any case |
| HttpResponse.TokenIff | apigateway/src/HttpResponse.cpp:24-36 | The characters of a header name are the visible ASCII characters that are no delimiters |
| HttpResponse.ValueIff | apigateway/src/HttpResponse.cpp:50-57 | A header value is refused exactly for NUL, line feed or carriage return |
| HttpResponse.SetFieldKeepsValid | apigateway/src/HttpResponse.cpp:108-124 | Setting a header keeps all names and values valid and unique up to case |
| HttpResponse.SetFieldShape | apigateway/src/HttpResponse.cpp:116-122 | Setting a header changes no name and no place, and appends the name only if none equals it up to case |
| HttpResponse.SetFieldLookup | apigateway/src/HttpResponse.cpp:116-122 | Afterwards that name has the new value and every other name the value it had |
| HttpResponse.WireRoundTrip | apigateway/src/HttpClient.cpp:299-404 | Any message with good fields and a matching Content-Length is read back with its status, trimmed reason, trimmed values and body, exactly when the body is within the limit |
| HttpResponse.ResponseRoundTrip | apigateway/src/HttpResponse.cpp:131-169 | For every response built through the setters the upstream parser recovers status, trimmed reason, trimmed headers and body from `toBytes`, exactly when the body is within the limit |
| HttpResponse.ResponseReceivedInPieces | apigateway/src/HttpClient.cpp:235-295 | Whatever the reads, the client receives it in full if and only if its header section is at most one byte over the limit and the whole within the size limit |
| Proxy.PrepareRequest | apigateway/src/HttpClient.cpp:157-197 | The request as written: the map in iteration order, then Host, Content-Length and Connection where missing |
| Proxy.AddedIff | apigateway/src/HttpClient.cpp:173-194 | Host, the length of a body and `Connection: close` are added, each exactly if the map has no field of that name in any case |
| Proxy.PrintedRequestParses | apigateway/src/HttpClient.cpp:165-194 | A printed request is accepted by the gateway's parser exactly when it fits the limits, with the same method, path, query, fields and body; otherwise the status is 431 or 414 as the limit broken |
| Proxy.AcceptedRequestOk | apigateway/src/ApiGateway.cpp:540-657 | What the gateway's parser accepts is fit to be printed again |
| Proxy.ProxyRequestRoundTrip | apigateway/src/ProxyManager.cpp:163-176 | An accepted request, filtered, printed in any map order and parsed again keeps method, path, query and body; the fields read back are exactly `Connection: keep-alive`, the Host, for a body its Content-Length, and every original field not called Host, Content-Length, Connection, Transfer-Encoding, Keep-Alive or Proxy-Connection in any case, with its value |
| Proxy.RewriteResponse | apigateway/src/ProxyManager.cpp:227-239 | The response as `forward` writes it |
| Proxy.ProxyResponseRoundTrip | apigateway/src/ProxyManager.cpp:213-239 | For every upstream response the client accepts and every map order, the bytes returned parse again with the same status and body and the reason unchanged or "OK"; the fields read back are exactly the recomputed Content-Length, `Connection: close`, and every original field not called by one of those six names in any case, with its value |
| Proxy.HopByHopIff | apigateway/src/ProxyManager.cpp:30-37 | The fields that end at the gateway are those called by one of the six names in any case |
| Proxy.NothingHopByHop | apigateway/src/ProxyManager.cpp:227-239 | Of the fields relayed none is called Transfer-Encoding, Keep-Alive or Proxy-Connection in any case, and only the gateway's own are called Connection, Host or Content-Length |
| Proxy.StatusFromDownstream | apigateway/src/ApiGateway.cpp:82-94 | `statusFromWire` on those bytes gives the status exactly when it is 100 to 599, or 0 |
| Proxy.StatusReadIff | apigateway/src/ApiGateway.cpp:82-94 | `statusFromWire` finds a status exactly in bytes that begin with `HTTP/`, three characters, a blank and three digits from 100 to 599 |
| Proxy.FourDigitStatusIsCut | apigateway/src/ApiGateway.cpp:86-93 | For every status of four digits: an answer with it is accepted by the client, and the status read back downstream is its first three digits, or 0 if they are over 599 |
| Reactor.StepKeepsDescriptors | apigateway/src/ApiGateway.cpp:354-376 | Every step keeps the table of connections equal to the set of open client descriptors, each generation being live at one of them or closed once |
| Reactor.StepKeepsFilters | apigateway/src/ApiGateway.cpp:285-290 | Every step keeps the phase: reading with the read filter, writing with the write filter, awaiting with neither |
| Reactor.PollReportsOnce | apigateway/src/ApiGateway.cpp:303-304 | With one filter per descriptor a batch reports a descriptor at most once |
| Reactor.StepKeepsReports | apigateway/src/ApiGateway.cpp:313-338 | While a batch is worked off, every report still in it stays true of the client it was made for, also when descriptors are closed and accepted anew meanwhile |
| Reactor.StepKeepsWork | apigateway/src/ApiGateway.cpp:722-812 | Every step keeps the work in the queue, on the workers and in the completion queue equal to what awaiting connections are owed, each item in one place |
| ReactorRuns.StepKeepsAnswers | apigateway/src/ApiGateway.cpp:780-783 | Work in progress has no answer yet and a completion carries the one answer of its generation |
| ReactorRuns.StepKeepsData | apigateway/src/ApiGateway.cpp:395-462 | A reading connection holds exactly what its client has sent, undecided; a writing one has sent exactly the first `writeOffset` bytes of its response |
| ReactorRuns.StepKeepsHistory | apigateway/src/ApiGateway.cpp:398-456 | A dispatched request is the verdict on the bytes of its own client, and a rejection likewise |
| ReactorRuns.RunKeepsInv | apigateway/src/ApiGateway.cpp:293-342 | All of this holds in every reachable state of reactor, workers, kernel and batch |
| ReactorRuns.PhasesAndWork | apigateway/src/ApiGateway.cpp:379-460 | In every reachable state a connection has at most one filter, the one of its phase, and an awaiting one has exactly one task or completion, of its own generation and request; no other work is for its descriptor |
| ReactorRuns.NothingStale | apigateway/src/ApiGateway.cpp:788-855 | No report and no completion ever reaches a later client that reuses the descriptor, and a handler at work always has the connection it was called for, not awaiting; the guards of the handlers are never needed |
| ReactorRuns.OwnResponse | apigateway/src/ApiGateway.cpp:817-848 | The bytes sent to a client are always a prefix of its one response, which a worker gave for the request parsed from that client's own bytes or which rejects them |
| ReactorRuns.DecisionsAreFinal | apigateway/src/ApiGateway.cpp:715-786 | A request or response once decided never changes |
| ReactorRuns.CompletedOnce | apigateway/src/ApiGateway.cpp:722-785 | A dispatched request contributes at most one completion, by a worker that holds that very request |
| ReactorRuns.SentInFull | apigateway/src/ApiGateway.cpp:824-847 | A connection closed because nothing is left to send has sent its whole response |
| ReactorRuns.ClosedExactlyOnce | apigateway/src/ApiGateway.cpp:194-219 | No client descriptor is closed twice, and by the end of teardown each has been closed once |
| ReactorRuns.PollsUntilStopped | apigateway/src/ApiGateway.cpp:293-343 | In every run the loop polls only while `run` was called and no stop, signal or teardown has come since, and it is left only when one has |
| ReactorRuns.DrainedBetween | apigateway/src/ApiGateway.cpp:313-341 | In every run, between two polls and after every reported wake, the loop has found the completion queue empty before it goes on |
| Gateway.ApiGateway.OnConnectionReadable | apigateway/src/ApiGateway.cpp:379-479 | For any results of `recv` the handler takes the specified steps of the machine; told by the result it gets to: end of file and an error leave no descriptor, connection or filter and the client closed, would-block and a short undecided read leave it open with the bytes received, a whole request is queued and stops reading, a refused one is answered; an unknown or awaiting connection is left alone |
| Gateway.ApiGateway.OnConnectionWritable | apigateway/src/ApiGateway.cpp:817-848 | For any results of `send` the handler takes the specified steps; once everything is sent, or when `send` fails, the client is closed and gone, and would-block leaves it open with its data and filters as they were and as much sent as `send` took |
| Gateway.ApiGateway.DrainCompletionQueue | apigateway/src/ApiGateway.cpp:788-813 | The loop empties the queue; every connection with a completion has the bytes of its last one to send, from the start, with a write filter and no longer awaiting, and nothing else changes |
| Gateway.ApiGateway.OnListenReadable | apigateway/src/ApiGateway.cpp:354-376 | The loop gives every accepted descriptor a fresh connection, a generation of its own and a read filter, and changes nothing else |
| Gateway.ApiGateway.CloseConnection | apigateway/src/ApiGateway.cpp:850-855 | Removes both filters, the descriptor and the connection, and nothing else |
| Gateway.ApiGateway.CloseConnections | apigateway/src/ApiGateway.cpp:206-210 | The loop of teardown closes each connection of the table once, empties it and leaves none of their descriptors and filters |
| HandlerEffects.ReadEffect | apigateway/src/ApiGateway.cpp:392-478 | What the reading handler leaves behind, told by the first result after which it does not call `recv` again |
| HandlerEffects.WriteEffect | apigateway/src/ApiGateway.cpp:824-847 | What the writing handler leaves behind, told likewise |
| HandlerEffects.DrainEffect | apigateway/src/ApiGateway.cpp:788-813 | What delivering a whole queue of completions leaves behind |
| HandlerEffects.AcceptEffect | apigateway/src/ApiGateway.cpp:354-376 | What accepting a number of clients leaves behind |
| HandlerLoops.ReadLoopKeepsInv | apigateway/src/ApiGateway.cpp:392-478 | A whole run of the reading handler keeps the invariant of the protocol and returns to the event loop |
| HandlerLoops.WriteLoopKeepsInv | apigateway/src/ApiGateway.cpp:824-847 | So does the writing handler |
| HandlerLoops.DrainLoopKeepsInv | apigateway/src/ApiGateway.cpp:788-813 | So does the delivery of completions, which leaves the queue empty |
| HandlerLoops.AcceptLoopKeepsInv | apigateway/src/ApiGateway.cpp:354-376 | So does accepting, which adds one generation for each descriptor |
| HandlerLoops.CloseLoopKeepsInv | apigateway/src/ApiGateway.cpp:206-210 | So does the closing loop of teardown |
| RouteTable.ResolveKeeps | apigateway/src/Router.cpp:97-130 | Walking down a pattern keeps the trie well-formed, adds only nodes without handlers and ends at the node of the pattern or with one of two errors |
| RouteTable.AddRouteKeeps | apigateway/src/Router.cpp:147-185 | Every registration, successful or not, keeps the trie well-formed: prefixes present, one parameter child per node |
| RouteTable.TrieRefinesFlatRoutes | apigateway/src/Router.cpp:225-267 | After any sequence of successful registrations, matching in the trie equals a greedy static-first match over the routes of the registration list, taken without a trie |
| RouteTable.RoutesDetermineTrie | apigateway/src/Router.cpp:97-130 | Two tries without leftovers that have the same routes are equal |
| RouteTable.MatchSound | apigateway/src/Router.cpp:235-266 | A match comes from a registered pattern of that method which becomes the segments of the path when its parameters, distinct in name, are replaced by the values returned |
| RouteTable.LiteralRouteFound | apigateway/src/Router.cpp:238-258 | A registered all-literal route is found for its own path and method, whatever else is registered |
| RouteReach.RouteFoundIff | apigateway/src/Router.cpp:238-253 | In any well-formed trie the walk for a path that fits a registered pattern ends at that pattern if and only if at none of its parameters a literal child with the segment of the path stands beside it; then the match is what is registered there |
| RouteReach.RegisteredRouteFoundIff | apigateway/src/Router.cpp:225-267 | After any successful registrations a registered route is reached by a path that fits it if and only if no registered pattern follows it up to one of its parameters and continues with the segment of the path as a literal |
| RouteReach.StaticSiblingHidesRoute | apigateway/src/Router.cpp:240-252 | With `/a/x` and `/:p/y` registered, `/b/y` is found and `/a/y` is not, although it fits `/:p/y` |
| RouteOrder.SuccessIff | apigateway/src/Router.cpp:101-143 | A registration succeeds if and only if its parameters are named, no parameter of another name stands at one of its places and the method is free there |
| RouteOrder.BuildIff | apigateway/src/Router.cpp:147-185 | A list of registrations succeeds as a whole if and only if its members are named and pairwise compatible, and then the trie holds exactly them |
| RouteOrder.OrderDoesNotMatter | apigateway/src/Router.cpp:147-185 | A list of registrations that succeeds does so in every order and builds the same trie |
| RouteOrder.RejectionChangesNothing | apigateway/src/Router.cpp:111-143 | A registration rejected as a duplicate or for a conflicting parameter name leaves the router as it was |
| RouteShadow.UnnamedRejectionIff | apigateway/src/Router.cpp:101-126 | A registration rejected for an unnamed parameter leaves every match unchanged if and only if the first node it would create is not a literal beside a parameter that leads to a route |
| RouteLater.LaterOutcomesIff | apigateway/src/Router.cpp:101-143 | It leaves the outcome of every later registration unchanged if and only if it created no parameter node on its way |
| RouteLater.FailedRegistrationBlocksRoute | apigateway/src/Router.cpp:108-116 | After a failed registration of `/b/:x/:` on an empty router some later registration fares differently |
| RouteLater.NeverNoticedIff | apigateway/src/Router.cpp:97-130 | After any registrations, one rejected for an unnamed parameter is never noticed, whatever is registered and matched later, if and only if it created no node |
| RouteLater.NothingCreatedIff | apigateway/src/Router.cpp:101-126 | It created no node if and only if the node of the segments in front of the unnamed one was there |
| RouteLater.NoticedLater | apigateway/src/Router.cpp:104-126 | A failed `/a/:` on an empty router changes no match and no outcome of the next registration, and yet hides `/a/y` from a `/:p/y` registered later |
| RouteShadow.FailedRegistrationHidesRoute | apigateway/src/Router.cpp:104-126 | On the router with the one route `/:p/y` a failed registration of `/a/:` makes a match disappear |
| Paths.SplitPath | apigateway/src/Router.cpp:66-93 | The loop computes the segments or fails as specified |
| Paths.SplitIff | apigateway/src/Router.cpp:66-93 | A path splits into given segments if and only if they are non-empty, free of '/' and their join with '/' is the path up to one slash at its end |
| Router.Router.LiteralChild | apigateway/src/Router.cpp:120-125 | The trie of linked nodes stays in order and its table gains the literal node if it was missing |
| Router.Router.ParamChild | apigateway/src/Router.cpp:108-118 | Likewise for the parameter child, or nothing changes when its name disagrees |
| Router.Router.ResolveOrCreateNode | apigateway/src/Router.cpp:97-130 | The loop over the linked nodes does to the table what the specification says and returns the node of the pattern, nodes made before an error staying |
| Router.Router.Register | apigateway/src/Router.cpp:135-143 | Registering on the linked trie is registering in the table, errors included |
| Router.Router.AddRoute | apigateway/src/Router.cpp:147-154 | The same for a typed handler; an empty one is refused before anything is touched |
| Router.Router.AddParamsRoute | apigateway/src/Router.cpp:156-167 | The same for a handler that takes the parameters only |
| Router.Router.AddProxyRoute | apigateway/src/Router.cpp:169-185 | The same for an upstream target; an empty host is refused first |
| Router.Router.Match | apigateway/src/Router.cpp:225-267 | The loop over the linked nodes finds what the table says, and nothing for a path that does not split |
| Router.LookupSound | apigateway/src/Router.cpp:225-267 | When a path is matched, a registered pattern with its parameters replaced, joined with '/', is the path up to one slash at its end |
| AsyncLogger.StepKeepsInv | apigateway/src/AsyncLogger.cpp:101-160 | Every step keeps: written, then in hand, then the active buffer are the records in the order accepted, and the other buffer is empty |
| AsyncLogger.WrittenIsPrefix | apigateway/src/AsyncLogger.cpp:122-146 | At every moment of every run the records written are the first ones accepted, in order and once each |
| AsyncLogger.DestructorWritesAll | apigateway/src/AsyncLogger.cpp:68-90 | When the destructor is done every record accepted has been written, once and in order |
| AsyncLogger.FlushIsSynchronous | apigateway/src/AsyncLogger.cpp:115-120 | `flush` returns only after every record accepted before the call has been written |
| AsyncLogger.FlushAnswered | apigateway/src/AsyncLogger.cpp:148-154 | With nobody logging, a pending flush is answered within three to five steps of the writer unless it is in its last round |
| AsyncLogger.FlushAnsweredIff | apigateway/src/AsyncLogger.cpp:148-158 | With nobody logging, the writer ever answers a pending flush if and only if it is not in its last round, or in it with nothing left in the active buffer |
| LoggerCode.Logger.Log | apigateway/src/AsyncLogger.cpp:101-113 | Adds the record to the active buffer |
| LoggerCode.Logger.SwapBuffers | apigateway/src/AsyncLogger.cpp:129-142 | Takes the active buffer's records and the stop flag and makes the other buffer active |
| LoggerCode.Logger.WriteRecords | apigateway/src/AsyncLogger.cpp:162-188 | The loop prints the lines of the records in order behind what was printed |
| LoggerCode.LineForms | apigateway/src/AsyncLogger.cpp:170-177 | The line of a record, with its level and, if there is one, its request id |
| LoggerCode.Logger.AnswerFlush | apigateway/src/AsyncLogger.cpp:148-158 | Clears the request exactly when both buffers are empty, and leaves or goes round again |
| LoggerCode.Logger.Round | apigateway/src/AsyncLogger.cpp:125-159 | One undisturbed round of the loop is the writer's three steps |
| LoggerCode.Logger.WriteRemaining | apigateway/src/AsyncLogger.cpp:79-89 | What is left is written, after which the output is the text of all records accepted |
| ThreadPoolCode.Pool.constructor | apigateway/src/ThreadPool.cpp:6-15 | A pool starts with an empty queue and as many idle workers as asked for, or one if none was asked for |
| ThreadPool.StepKeepsInv | apigateway/src/ThreadPool.cpp:31-50 | Every step keeps: started tasks then queued ones are the tasks in the order enqueued; every start is running or finished; a worker has left only when the pool is stopping and the queue empty |
| ThreadPool.StartsInOrder | apigateway/src/ThreadPool.cpp:35-48 | In every run tasks start in the order they were enqueued, each once |
| ThreadPool.DestructorDrains | apigateway/src/ThreadPool.cpp:17-29 | When the destructor returns the queue is empty and every task ever enqueued has run to its end exactly as often as it was enqueued |
| ThreadPool.ShutdownBound | apigateway/src/ThreadPool.cpp:31-50 | Once the pool is stopping, the workers have a bounded number of steps left |
| ThreadPool.ShutdownGoesOn | apigateway/src/ThreadPool.cpp:22-29 | And until the destructor returns, some worker or the destructor can go on |
| ThreadPoolCode.Pool.Enqueue | apigateway/include/ThreadPool.hpp:46-66 | Appends the task, or refuses it without effect once the pool is stopping |
| ThreadPoolCode.Pool.NextTask | apigateway/src/ThreadPool.cpp:35-45 | A woken worker takes the front task, or leaves exactly when the pool is stopping and nothing is queued |
| ThreadPoolCode.Pool.WorkerLoop | apigateway/src/ThreadPool.cpp:31-50 | In a stopping pool a worker left alone runs all that is queued, in order, and leaves |
| ConnectionPool.LeaseTakesNewestHealthy | apigateway/src/ConnectionPool.cpp:44-55 | A lease hands out the newest healthy connection, closes exactly the newer ones, newest first, and keeps the older ones; without a healthy one it closes all |
| ConnectionPool.SortedOldestIsFront | apigateway/src/ConnectionPool.cpp:69-75 | In a list in order of last use, the element evicted is the front |
| ConnectionPool.ReleaseTakesBack | apigateway/src/ConnectionPool.cpp:65-78 | With room for it the connection goes behind all others, which stay in order, and nothing is closed; from a full list exactly the one used longest ago is closed and all others stay in order |
| ConnectionPool.ReapCutsPrefix | apigateway/src/ConnectionPool.cpp:90-102 | In such a list reaping removes and closes exactly a prefix: the connections idle for longer than the timeout |
| UpstreamSockets.StepKeepsInv | apigateway/src/ProxyManager.cpp:128-161 | Every step of interleaved calls, reaping and destruction keeps each open upstream socket in one place, under its own host, and every idle list within its maximum and in order |
| UpstreamSockets.ClosesOnlyOwn | apigateway/src/HttpClient.cpp:72-77 | A step closes only sockets that are open, and only idle ones or the one its own call holds |
| UpstreamSockets.OnePlace | apigateway/src/ProxyManager.cpp:241-244 | In every run a socket is open exactly if it is held or idle, never both; one call holds it, for the host it is connected to, or it is idle under that host |
| UpstreamSockets.IdleListsInOrder | apigateway/src/ConnectionPool.cpp:58-79 | Idle lists never exceed the maximum, stay in order of last use and list no socket twice |
| UpstreamSockets.ReturnedIffKept | apigateway/src/ProxyManager.cpp:219-244 | In every run a call puts its socket back only after a response that keeps the connection alive and closes it at its end only after one that does not |
| UpstreamSockets.NoneLeftOpen | apigateway/src/ConnectionPool.cpp:105-115 | However the calls ended, after the pool's destruction no upstream socket is open |
| PoolCode.Pool.Lease | apigateway/src/ConnectionPool.cpp:34-56 | The loop hands out and closes what the specification of a lease says and leaves other hosts alone |
| PoolCode.Pool.Release | apigateway/src/ConnectionPool.cpp:58-79 | Puts the socket last; with room nothing is closed and the list keeps all, from a full list exactly the one used longest ago is closed and the others stay in order; a negative descriptor is ignored |
| PoolCode.Pool.MinElement | apigateway/src/ConnectionPool.cpp:69-73 | Finds the first of the least recently used |
| PoolCode.Pool.ReapStale | apigateway/src/ConnectionPool.cpp:85-103 | For any order of hosts each list keeps its fresh connections and exactly the stale ones are closed |
| PoolCode.Pool.CloseAll | apigateway/src/ConnectionPool.cpp:105-115 | For any order of hosts all lists become empty and exactly the idle sockets are closed |
| HttpClient.Client.AdoptConnection | apigateway/src/HttpClient.cpp:109-130 | Accepted exactly in three states; closes the socket it still had and forgets the previous exchange |
| HttpClient.Client.CompleteConnect | apigateway/src/HttpClient.cpp:132-155 | Succeeds exactly when connecting and without a socket error |
| HttpClient.Client.PrepareRequest | apigateway/src/HttpClient.cpp:157-197 | From `Connected` only; the write buffer is the printed request |
| HttpClient.Client.Send | apigateway/src/HttpClient.cpp:200-231 | For any results of `send` the state afterwards is as specified and as `ClientLoops.SendEffect` tells by the results, and the bytes on the wire are the request up to the offset, all of it once receiving |
| HttpClient.Client.Receive | apigateway/src/HttpClient.cpp:235-295 | For any results of `recv` the progress is as specified and as `ClientLoops.ReceiveEffect` tells by the results; a complete response is the one-shot parse of all bytes received |
| ClientLoops.SendEffect | apigateway/src/HttpClient.cpp:200-231 | Everything sent means receiving, a failing `send` the end, would-block waiting with as much sent as `send` took |
| ClientLoops.ReceiveEffect | apigateway/src/HttpClient.cpp:235-295 | End of file, an error, too many bytes and malformed ones fail the client, a whole response completes it, and would-block or a short read leave it receiving with all bytes so far |
| HttpClient.Client.ReleaseFd | apigateway/src/HttpClient.cpp:406-414 | Hands the socket over without closing it |
| HttpClient.Client.Close | apigateway/src/HttpClient.cpp:72-77 | Closes the socket if there is one, and only an open one |
| ResponseParser.ReceiveOneMore | apigateway/src/HttpClient.cpp:245-276 | Receiving one more chunk continues from what was received |
| SocketStream.OwnAnswersIff | apigateway/src/ProxyManager.cpp:219-244 | Of answers that the client accepts, sent over one socket in the order of the requests, each call reads exactly its own, whatever the reads, if and only if each answer that is reached, because all before it keep the socket alive, ends where the client takes its body to end |
| SocketStream.NextCallReadsLeftover | apigateway/src/HttpClient.cpp:393-401 | In every run in which a call stopped short of the end of its answer the next call on the socket begins with the bytes left over |
| SocketStream.NextCallDelivers | apigateway/src/HttpClient.cpp:393-401 | If those bytes are an acceptable response that ends where the client takes its body to end, and the first response keeps the socket alive, a run exists in which the next call is given that response, whatever is sent for its own request |
| SocketStream.SecondIsDelivered | apigateway/src/HttpClient.cpp:393-401 | That is so for any two such responses sent together for one request |
| SocketStream.TwoAnswersForOne | apigateway/src/HttpClient.cpp:393-401 | An instance: an empty answer with status 200 followed by one with the body "x" |
| SocketStream.OtherFramingIsUnframed | apigateway/src/HttpClient.cpp:372-396 | An answer with a body but without Content-Length does not end there |
| SocketStream.KeepsAliveIff | apigateway/src/ProxyManager.cpp:219-225 | The first field called Connection in any case decides: its value is keep-alive in any case; without one the socket is kept |
| ProxyManager.Manager.Forward | apigateway/src/ProxyManager.cpp:115-257 | For any kernel and clock answers, a number that the lease has just freed for the new socket included, the result is the rewritten upstream response or the error of the first thing that went wrong; on every exit the sockets in use are those in use before, and the one used is open and idle exactly when the response keeps it alive |
| ProxyManager.ErrorAnswer | apigateway/src/ProxyManager.cpp:102-113 | An error is read by the client as 504 Gateway Timeout for connecting, sending or receiving that took too long, and as 502 Bad Gateway for everything else |
| ProxyManager.ErrorTexts | apigateway/src/ProxyManager.cpp:140-210 | The text of each error |
| ProxyManager.ConnectExits | apigateway/src/ProxyManager.cpp:128-158 | Connecting fails only without a healthy idle connection, and then for the first of: no socket, not ready in time, a socket error |
| ProxyManager.SendExit | apigateway/src/ProxyManager.cpp:181-195 | After any rounds that were blocked and went on in time, a failing `send` is an error and a round that is blocked and does not is a timeout |
| ProxyManager.ReceiveExit | apigateway/src/ProxyManager.cpp:197-211 | Likewise for receiving |
| ProxyManager.Manager.OpenConnection | apigateway/src/ProxyManager.cpp:128-161 | A pooled connection if a healthy one is idle, else a new one; the client then holds the only socket that came into use |
| ProxyManager.Manager.SendAll | apigateway/src/ProxyManager.cpp:181-195 | The loop ends sent, failed or timed out as specified |
| ProxyManager.Manager.ReceiveAll | apigateway/src/ProxyManager.cpp:197-211 | The loop ends complete, failed or timed out as specified |
| ProxyManager.LeaseAndUse | apigateway/src/ConnectionPool.cpp:34-56 | A lease moves exactly the socket it hands out from idle to in use |
| ProxyManager.ReleaseAndUse | apigateway/src/ConnectionPool.cpp:58-79 | A release moves exactly that socket back |
| Middleware.TraceIsNested | apigateway/src/Middleware.cpp:43-50 | The trace of a run enters middlewares in registration order, has the terminal step in the middle exactly when all of them call `next`, and leaves them in the opposite order |
| Middleware.EachAtMostOnce | apigateway/src/Middleware.cpp:37-50 | Each middleware and the terminal step run at most once, whatever the middlewares do |
| Middleware.SecondCallRunsNothing | apigateway/src/Middleware.cpp:19-25 | A second call of `next` throws before anything further down runs |
| Middleware.OutcomePropagates | apigateway/src/Middleware.cpp:43-50 | The outcome of the terminal step, returned or thrown, reaches the caller through any middlewares that call `next` and end as it did, whatever else they do |
| Middleware.InnermostCatchDecides | apigateway/src/Middleware.cpp:43-50 | A middleware that ends otherwise, with all outside it passing on what it makes of it, decides the outcome in its stead |
| Middleware.OneMiddleware | apigateway/src/Middleware.cpp:43-50 | Instances: one that goes on as `next` ended passes its outcome on, one that throws after a return and returns after a throw turns it round |
| Middleware.RunState.Run | apigateway/src/Middleware.cpp:37-41 | The recursion of the source produces that trace and outcome |
| Middleware.RunState.RunBody | apigateway/src/Middleware.cpp:19-25 | So does one middleware's body with its flag |

## Left out

- Socket creation, `poll`, `kevent`, signal dispositions and error texts: foreign calls. Their results are inputs, and a registered filter may be reported at any time.
- A failing `fcntl` in `createConnectingSocket` or in `onListenReadable` throws with the new descriptor open; those exceptions, and exceptions for lack of memory, are not modelled.
- Memory order beyond stale loads and spurious failures; `TokenBucket` runs one thread with loads that see the latest value, the machine in `RateLimiter` has the rest.
- `run()`, `stop()` and the start of `teardown()` as code: they are events of the reactor machine (`Run`, `Poll`, `Next`, `RequestStop`, `TearDown`, `WorkersJoined`); only the handlers and the closing loop are methods.
- In-place update of a connection inside the connection map: the map holds values that are replaced. `RequestParser.Connection` has the read side as an object.
- Locks and condition variables: a section under a lock is one step. Who is woken, and how long anybody waits, is not modelled, nor is `flush` on a logger whose writer has left.
- The version string of a request, which the gateway drops, and the text of request ids and timestamps.
- Default reason phrases and the limit on the number of middlewares: one-branch facts.
- Field names that differ only in case in one incoming request: which of several Content-Length headers counts depends on the iteration order, which is a parameter here.
- Bodies of route handlers and middlewares; a worker may answer with any bytes.
- The branch of `forward` that closes a leased socket because the client refused it: a new client never refuses.
- Routing a request through the middleware chain to a handler or the proxy (`routeRequest`): it only composes what is modelled.
- `idleConnectionCount`, `pendingTasks` and the other counters: they read a size.
- TokenBucket.Limiter.DoRefill: one thread with loads that see the latest value; what other threads do in between is in the machine of `RateLimiter` only, because the class runs one call at a time.
- TokenBucket.Limiter.TryAcquire: likewise an undisturbed call.
- RateLimiter.RefillCatchesUp: leaves out runs in which the time since the timestamp a thread loaded, times the rate, reaches 2^64 (2.3 years without a refill at 250 per second); such a refill credits less than the time is worth.
- RateLimiter.RunCatchesUp: leaves out the same runs.
- RateLimiter.PlainBoundIffExactRate: leaves out the same runs for rates above 10^9 only.
- RateLimiter.BoundedIffRate: leaves out the same runs; for rates up to 10^9 `RateLimiter.GrantedBound` bounds them too.
- ThreadPoolCode.Pool.WorkerLoop: covers a pool that is stopping and a worker whose loop is not interleaved with others; while a pool is not stopping the loop does not end, and interleavings are in the machine of `ThreadPool`.
- SocketStream.OwnAnswersIff: when bytes arrive is left open, so the health probe of a lease, which sees only what has arrived by then, does not help against late bytes.
