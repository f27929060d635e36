# http_lolo, modelled in Dafny

http_lolo is a small single-threaded HTTP/1.1 server built on epoll. One
shared counter hands out server ids and connection keys, starting at 100.
`HttpServer::new` takes a server id, `handle_route` stores a handler under
`path + "." + server_id`, `listen_on` registers a non-blocking listener, and
`run_all` takes readiness events in batches:

- a listener's event accepts a connection, records a fresh `Request` for it
  and re-arms the listener;
- a connection's readable event runs `read_cb`, which feeds the chunk read to
  the HTTP tokenizer until the head is complete and appends later chunks to
  the body;
- once the head is complete and the body has reached its Content-Length, the
  request is dispatched: a fresh `ResponseWriter` runs the route's handler, or
  answers 404 when there is none;
- every terminal writer call copies the writer's state into the write-back
  table `WRITE_CTX`;
- the connection's writable event serialises that copy (`excute`): status
  line, one field line per header value, an empty line, then the body. The
  response is sent and the connection is dropped.

A separate CGI bridge (`handle_cgi`) runs a script with the request's
meta-variables and `HTTP_` variables. It reads the script's output back: field
lines up to the first empty line become headers, and later lines go to the
body.

The project has seven modules:

- `Wrappers`: `Option` and `Result`.
- `Utf8`: `str::as_bytes` (`Encode`) and `std::str::from_utf8` (`Decode`), with
  both round trips.
- `Text`: the `str` operations the server uses: `split`, `split_once`, `trim`,
  `trim_matches`, `lines`, decimal `to_string` and `usize::from_str`.
- `Responses`: the response writer.
  - `ResponseWriter` is a class whose methods update its body, headers and
    status, and store copies in the `WriteTable`.
  - `Apply`/`Run` specify what a sequence of writer calls does.
  - `Wire` specifies the bytes `excute` sends.
- `Requests`: the readiness registrations (`Poller`) and the `Request` class.
  - Its `ReadCb`, `HandleCompleteRequest` and `WriteCb` methods are proved
    against the pure functions `Parse`, `Absorb`, `Dispatched` and `Wire`.
- `Reactor`: the global tables of `src/lib.rs` as the fields of one `Reactor`
  object.
  - Its methods keep the invariant `Valid()`: ids below the counter, listeners
    and connections disjoint and exactly the registered descriptors, each
    connection owning its own request, stored responses only for live
    connections.
  - `Step` routes one event and `RunBatch` one batch.
- `Cgi`: the environment `handle_cgi` builds (`Environment`) and its output
  parser (`ParseLine`/`ParseLines`).

What the outside world decides is given to each operation as a parameter:

- what `read` and `accept` return;
- what the tokenizer reports (`ParseOutcome`);
- what the filesystem says about an HTML file (`FileOutcome`);
- what the CGI script printed and whether it succeeded;
- `HttpStatus::from_code` (`lookup`);
- the iteration order of a `HashMap` (`order`).

The epoll registrations are a ghost map from event id to the interest
registered for it.

## Model

| member | source | states |
|---|---|---|
| Utf8.EncodeChar | src/response_writer.rs:53 | a character takes one to four bytes. It takes exactly one byte, equal to its code, iff it is ASCII. Otherwise the lead byte is at least 0xC0 and the rest are continuation bytes |
| Utf8.EncodeAppend | src/response_writer.rs:53 | the bytes of a concatenation are the concatenation of the bytes, so appending text piece by piece appends its bytes |
| Utf8.DecodeFirstEncodeChar | src/request.rs:162 | the bytes of a character, whatever follows them, decode to that character and its byte length |
| Utf8.EncodeCharDecodeFirst | src/request.rs:162 | a well-formed leading sequence is exactly the bytes of the character it decodes to |
| Utf8.DecodeEncode | src/request.rs:162 | `from_utf8` accepts the bytes of every string and gives that string back |
| Utf8.EncodeDecode | src/request.rs:162 | bytes that `from_utf8` accepts are the bytes of the string it returns, so a decoded header value loses nothing |
| Text.Split | src/request.rs:169 | `split` yields at least one piece, no piece holds the separator, and joining the pieces with it gives the text back |
| Text.SplitJoin | src/request.rs:169 | splitting a join of separator-free pieces gives back exactly those pieces |
| Text.SplitCons | src/cgi_handlers.rs:25 | a separator-free head is the first piece of the split, and the rest splits on its own |
| Text.SplitOnce | src/request.rs:170 | `split_once` fails iff the separator is absent; otherwise the head is separator-free and head, separator and tail rebuild the text |
| Text.SplitOnceOf | src/request.rs:170 | a separator-free head followed by the separator is exactly what `split_once` cuts off, whatever the tail holds |
| Text.TrimStartBy | src/request.rs:66 | the result is a suffix of the input, every dropped character satisfies the predicate, and the first kept one does not |
| Text.TrimEndBy | src/request.rs:68 | the result is a prefix of the input, every dropped character satisfies the predicate, and the last kept one does not |
| Text.TrimOf | src/request.rs:170 | trimming any whitespace around a text that neither starts nor ends with whitespace gives exactly that text |
| Text.Lines | src/cgi_handlers.rs:53 | no line returned by `lines` holds a line feed |
| Text.LinesCons | src/cgi_handlers.rs:53 | the first line ends at the first line feed, with one carriage return before it dropped |
| Text.LinesCrLf | src/cgi_handlers.rs:53 | a CRLF ends a line just as a bare LF does |
| Text.LinesUnlines | src/cgi_handlers.rs:53 | lines free of line feeds and trailing carriage returns, written one per line, read back as themselves |
| Text.Decimal | src/request.rs:116 | `to_string` of an unsigned id is a non-empty digit string whose value is the id, with no leading zero |
| Text.DecimalInjective | src/lib.rs:130 | distinct ids have distinct decimal spellings |
| Text.ParseUsize | src/request.rs:196 | a successful `parse::<usize>` never exceeds 2^64 - 1 |
| Text.ParseDecimal | src/request.rs:193-198 | parsing the decimal spelling of any 64-bit value gives that value back |
| Responses.CookieText | src/response_writer.rs:104-110 | definition of the Set-Cookie value; see CookieTextSnoc, CookieTextSplit, TwoCookies |
| Responses.ReplaceAll | src/response_writer.rs:57-62 | definition of `set_headers` on the header map; see ReplaceAllLastWins, ReplaceAllUntouched |
| Responses.Apply | src/response_writer.rs:28-133 | definition of one writer call's effect on body, headers and status; see ResponseWriter.Perform, TwoCookies |
| Responses.Run | src/response_writer.rs:63-66 | definition of a handler's run: the final state and the copy the last terminal call stored; see RunStoresLastTerminal, RunStoresNothing, ResponseWriter.Handle |
| Responses.Wire | src/response_writer.rs:67-83 | definition of the bytes `excute` sends; see Excute, WireStartsWithStatusLine, WireEndsWithBody, FieldLinesExact, FieldLinesBlock |
| Requests.Insert | src/request.rs:161-174 | definition of successive `HashMap::insert` calls; see InsertLastWins, InsertUntouched |
| Requests.HeaderEntry | src/request.rs:162-165 | definition of a tokenizer header as a map entry, skipped when not UTF-8; see HeaderLastWins, HeaderSkipsNonUtf8 |
| Requests.CookieEntry | src/request.rs:170-171 | definition of a Cookie piece as a map entry; see CookieEntryOf, CookieRoundTrip |
| Requests.GetBoundary | src/request.rs:62-73 | definition of `get_boundary`; see BoundaryFirst, BoundaryNone, QuotedBoundary |
| Requests.RouteKey | src/request.rs:116 | definition of the route key `path.server_id`; see RouteKeyInjective, Reactor.RouteIsolation |
| Requests.Parse | src/request.rs:147-191 | definition of `parse_request` on the tokenizer's verdict; see Request.ParseRequest, AbsorbAllGrows, FragmentedHead |
| Requests.Absorb | src/request.rs:88-93 | definition of what one read does to the request; see Request.ReadCb, AbsorbAllGrows, AbsorbAllAfterHead |
| Requests.Dispatched | src/request.rs:113-124 | definition of the write-back table after a dispatch; see Request.HandleCompleteRequest, NotFoundWire |
| Cgi.QueryString | src/cgi_handlers.rs:25 | definition of QUERY_STRING; see QueryStringOf |
| Cgi.Environment | src/cgi_handlers.rs:23-29 | definition of the variables set for the script; see MetaVarsKept, HeaderVarSet, SetEnvironment |
| Cgi.ParseLine | src/cgi_handlers.rs:54-69 | definition of one output line's effect; see FieldIntoEmpty, BlankThenText, HeadersFrozenAfterBlank |
| Cgi.ParseLines | src/cgi_handlers.rs:52-70 | definition of the output loop; see BodyHasNoEmptyLine, NoBlankLineNoBody, ParseLinesAppend, ReadOutput |
| Cgi.ScriptPath | src/cgi_handlers.rs:18 | definition of the script's path; see ScriptPathRelative |
| Responses.CookieTextSnoc | src/response_writer.rs:104-109 | each attribute adds `; attr=val`, or `; attr` without a value, at the end of the cookie text |
| Responses.AttributeTextOf | src/response_writer.rs:106-109 | an attribute's text is `; attr=val`, or `; attr` when it has no value |
| Responses.CookieTextSplit | src/response_writer.rs:98-115 | split on `;`, a Set-Cookie value built from semicolon-free parts gives `name=value` and then one piece per attribute, in order |
| Responses.AttributePieces | src/response_writer.rs:105-110 | one piece per attribute, in the order given |
| Responses.JoinAttributes | src/response_writer.rs:105-110 | appending the attributes is joining their pieces with `;` |
| Responses.KeyLines | src/response_writer.rs:70-72 | one field line `name: value` CRLF per value of a header, in the order the values were added |
| Responses.PushKeyLines | src/response_writer.rs:70-72 | the inner loop appends exactly the field lines of one header's values |
| Responses.Excute | src/response_writer.rs:67-83 | for some order listing every header name once, the bytes sent are the status line of the code set (or 200), the field lines, an empty line and the body |
| Responses.WireStartsWithStatusLine | src/response_writer.rs:74-80 | the response starts with `HTTP/1.1 <code> <reason>` CRLF for the status set, or for 200 when none was set |
| Responses.WireEndsWithBody | src/response_writer.rs:82-83 | the response ends with the body, byte for byte |
| Responses.FieldLinesExact | src/response_writer.rs:69-73 | a line is a field line of the response iff it is `name: value` for some recorded name and one of its values. Nothing is added and nothing is lost, whatever the name order |
| Responses.FieldLinesMember | src/response_writer.rs:69-73 | every field line comes from a recorded value |
| Responses.FieldLinesHas | src/response_writer.rs:69-73 | every recorded value of every header has its field line |
| Responses.FieldLinesBlock | src/response_writer.rs:70-72 | a header's values come out as one contiguous run of field lines, in the order they were added |
| Responses.NoHeadersWire | src/response_writer.rs:74-83 | with no header set, the response is the status line, an empty line and the body |
| Responses.ConcatAppend | src/response_writer.rs:71 | concatenating two runs of lines is concatenating their texts |
| Responses.RunStoresLastTerminal | src/response_writer.rs:63-66 | the stored copy is the state as of the last terminal call; later calls change the writer but not the stored copy |
| Responses.RunStoresNothing | src/response_writer.rs:63-66 | a handler making no terminal call stores nothing |
| Responses.TwoCookies | src/response_writer.rs:91-96 | two `set_cookie` calls keep both values as separate Set-Cookie values, in call order, after any earlier ones |
| Responses.WriteTable.constructor | src/lib.rs:38 | the write-back table starts empty |
| Responses.ResponseWriter.constructor | src/response_writer.rs:19-27 | a new writer has an empty body, no headers and no status, bound to its event id |
| Responses.ResponseWriter.Write | src/response_writer.rs:63-66 | the table holds a copy of the writer's state under its event id, and every other entry is unchanged |
| Responses.ResponseWriter.WriteString | src/response_writer.rs:52-55 | the text's bytes are appended to the body; headers and status are untouched; the state is stored |
| Responses.ResponseWriter.SetHeaders | src/response_writer.rs:57-62 | each given name now holds only the value of its last entry, so earlier values (Set-Cookie ones included) are replaced, not appended to. Names that no entry gives keep their values, or stay absent. Body and status are untouched and nothing is stored |
| Responses.ReplaceAllLastWins | src/response_writer.rs:58-61 | the last entry for a name decides it: the name holds that one value |
| Responses.ReplaceAllUntouched | src/response_writer.rs:58-61 | a name no entry gives keeps whatever the headers had for it, present or absent |
| Responses.ResponseWriter.SetCookie | src/response_writer.rs:91-96 | `name=value` is appended to the Set-Cookie values; body and status are untouched and nothing is stored |
| Responses.ResponseWriter.SetCookieWithAttributes | src/response_writer.rs:98-115 | the cookie with its attributes in order is appended to the Set-Cookie values; body and status are untouched |
| Responses.ResponseWriter.WriteJson | src/response_writer.rs:116-123 | Content-Type becomes `application/json` alone, the body is replaced by the dump, the status is kept, and the state is stored |
| Responses.ResponseWriter.SetStatus | src/response_writer.rs:125-127 | only the status changes and nothing is stored |
| Responses.ResponseWriter.WriteStatus | src/response_writer.rs:129-133 | the body becomes the reason phrase and the status its code; headers are kept; the state is stored |
| Responses.ResponseWriter.ExecuteHtmlFile | src/response_writer.rs:28-42 | a missing file gives status 404, appends `File not found`, stores the state and reports a NotFound error. An unreadable file changes nothing and returns the read error. Otherwise Content-Type becomes `text/html`, the body becomes the file's text, and the state is stored |
| Responses.ResponseWriter.Perform | src/response_writer.rs:52-133 | one writer call moves the state as `Apply` says, and stores it exactly when the call is terminal |
| Responses.ResponseWriter.Handle | src/request.rs:118-120 | a handler leaves the writer in the state `Run` computes; the table holds the last terminal copy, or is untouched when no call was terminal |
| Requests.Poller.constructor | src/lib.rs:42 | no descriptor is registered at start |
| Requests.Poller.Add | src/lib.rs:81-86 | the id is registered with the interest given |
| Requests.Poller.Modify | src/request.rs:98-102 | a registered id is re-armed with the interest given |
| Requests.Poller.Remove | src/response_writer.rs:89 | a registered id is deregistered |
| Requests.Poller.Close | src/lib.rs:118-120 | dropping a connection's last descriptor leaves it unregistered |
| Requests.InsertLastWins | src/request.rs:161-166 | after the inserts, a key holds the value of the last item that writes it |
| Requests.InsertUntouched | src/request.rs:161-166 | a key that no item writes keeps whatever the map had for it, present or absent |
| Requests.HeaderLastWins | src/request.rs:161-166 | a repeated header name keeps its last UTF-8 value |
| Requests.HeaderSkipsNonUtf8 | src/request.rs:162 | a header whose values are never UTF-8 is never added |
| Requests.CookieEntryOf | src/request.rs:170-171 | a cookie piece `name=value` gives exactly that entry, even when the value holds `=`; `name=` gives the empty value |
| Requests.CookieRoundTrip | src/request.rs:168-174 | a cookie written by `set_cookie` is read back by the Cookie parser as that cookie, an empty value included |
| Requests.InsertSnoc | src/request.rs:169-173 | one more item inserts its entry, if it has one, last |
| Requests.ContentLength | src/request.rs:193-198 | the Content-Length read never exceeds 2^64 - 1 |
| Requests.ContentLengthOf | src/request.rs:193-198 | a Content-Length written in decimal is read back as its value |
| Requests.ContentLengthInvalid | src/request.rs:196-197 | an unparsable Content-Length counts as no Content-Length at all |
| Requests.BoundaryFirst | src/request.rs:65-71 | the first `;`-part that starts with `boundary=` once trimmed gives the boundary |
| Requests.BoundaryNone | src/request.rs:65-71 | with no such part there is no boundary |
| Requests.QuotedBoundary | src/request.rs:67-68 | `boundary="b"` gives `b` without its quotes |
| Requests.RouteKeyInjective | src/request.rs:116 | the route key determines both the path and the server id, because decimal ids hold no `.` |
| Requests.AbsorbAllGrows | src/request.rs:88-93 | across any run of reads, the head stays done once done, the body only grows by appending, and nothing but the body is filled in before the head is done |
| Requests.AbsorbAllAfterHead | src/request.rs:89-93 | once the head is done, later reads only append their bytes to the body, in order |
| Requests.FragmentedHead | src/request.rs:89-93 | a chunk the tokenizer finds partial stays in front of the body when a later chunk completes a head |
| Requests.Decimal404 | src/request.rs:122 | 404 is spelt `404` |
| Requests.NotFoundStatusLine | src/request.rs:122 | the 404 status line is `HTTP/1.1 404 Not Found` CRLF |
| Requests.NotFoundWire | src/request.rs:120-123 | a missing route stores the 404 copy, and it is sent as the 404 status line, an empty line and `Not Found` |
| Requests.Request.constructor | src/request.rs:22-34 | a new request has nothing parsed and an empty body, on the server given |
| Requests.Request.InsertHeaders | src/request.rs:161-166 | the UTF-8 headers are inserted in order and nothing else changes |
| Requests.Request.InsertCookies | src/request.rs:168-174 | each `;`-piece with an `=` is inserted in order, trimmed and cut at its first `=`, and nothing else changes |
| Requests.Request.ParseRequest | src/request.rs:147-191 | a complete head fills in method, path, protocol, headers and cookies, marks the head done and keeps the bytes after the head as body. A partial head appends the chunk to the body. A tokenizer error changes nothing |
| Requests.Request.ReadCb | src/request.rs:74-107 | a would-block read is Ok and another read error is returned; an empty read changes nothing. Otherwise the chunk is absorbed, and the request is dispatched iff the head is done and the body reaches Content-Length (write interest); else read interest is re-armed |
| Requests.Request.HandleCompleteRequest | src/request.rs:109-131 | the table gets the route's last terminal copy, or the 404 copy when no route matches `path.server_id`; the connection is re-armed for writing |
| Requests.Request.WriteCb | src/request.rs:132-145 | a stored response is sent as its wire bytes and the connection deregistered. The entry is removed whether or not it was there, and no other entry changes |
| Reactor.RouteIsolation | src/lib.rs:127-133 | registering a route for one (path, server) leaves every other pair's lookup unchanged |
| Reactor.Reactor.constructor | src/lib.rs:35-44 | the counter starts at 100 with every table empty, and the invariant holds |
| Reactor.Reactor.NewServer | src/lib.rs:49-54 | a new server takes the current counter value, and the counter moves up by one |
| Reactor.Reactor.HandleRoute | src/lib.rs:127-133 | the handler is stored under `path.server_id`, replacing any earlier one |
| Reactor.Reactor.ListenOn | src/lib.rs:135-150 | the listener is recorded and registered for reading under the server id. Listening again on the same server replaces the earlier listener |
| Reactor.Reactor.OnListener | src/lib.rs:73-101 | an accepted connection gets a fresh request on this server under the counter value, registered for reading. A failed accept changes no table. Either way the listener is re-armed for reading |
| Reactor.Reactor.AddConnection | src/lib.rs:75-90 | a fresh request for the server is recorded and registered for reading under the counter value, and the counter moves up |
| Reactor.Reactor.OnReadable | src/lib.rs:108-110 | `read_cb` runs on the connection's request, which stays recorded, with the outcomes `ReadCb` states |
| Reactor.Reactor.OnWritable | src/lib.rs:111-120 | the stored response, if any, is sent; then the connection, its stored entry and its registration are all gone |
| Reactor.Reactor.Step | src/lib.rs:72-123 | a listener's event accepts as `OnListener` states: a fresh request under the counter, registered for reading, or no table changed on a failed accept, and the listener re-armed. A connection's in-bit wins over its out-bit: a readable event returns `read_cb`'s result and absorbs the chunk, dispatching exactly when the request is ready. An out-only event sends `Wire` of the stored response (for some order of its header names), or nothing when none is stored, and drops the connection; an event with neither bit changes nothing. An unknown id changes nothing. No request object other than the event's own changes. The invariant holds |
| Reactor.Reactor.RunBatch | src/lib.rs:62-124 | the invariant holds after a batch; servers and routes are unchanged; the counter never goes down |
| Cgi.QueryStringOf | src/cgi_handlers.rs:25 | the query string is the text between the first and the second `?`, and empty without a `?` |
| Cgi.EnvName | src/cgi_handlers.rs:27 | `HTTP_` followed by the key, character by character upper-cased with `-` turned into `_` |
| Cgi.EnvNameShape | src/cgi_handlers.rs:27 | an `HTTP_` name holds no `-` and no lower-case ASCII letter |
| Cgi.MetaVarsKept | src/cgi_handlers.rs:23-29 | no header variable overwrites REQUEST_METHOD, PATH_INFO or QUERY_STRING |
| Cgi.HeaderVarSet | src/cgi_handlers.rs:26-29 | a header whose `HTTP_` name no other header shares reaches the script with its value |
| Cgi.SetEnvironment | src/cgi_handlers.rs:23-29 | the variables set are the three meta-variables and one `HTTP_` variable per header, in the map's order |
| Cgi.BodyHasNoEmptyLine | src/cgi_handlers.rs:53-70 | the body never gains an empty line: empty output lines are dropped, not copied |
| Cgi.NoBlankLineNoBody | src/cgi_handlers.rs:54-65 | output without an empty line adds nothing to the body |
| Cgi.HeadersFrozenAfterBlank | src/cgi_handlers.rs:54-69 | after the first empty line no header changes |
| Cgi.ThreeLines | src/cgi_handlers.rs:53 | a field line, a CRLF empty line and a body line ending in LF are read as three lines |
| Cgi.FieldLineSplit | src/cgi_handlers.rs:59-64 | `name: value` splits at its colon into the trimmed name and value |
| Cgi.ParseLinesAppend | src/cgi_handlers.rs:52-70 | reading the output in two parts ends in the same state as reading it at once: the loop carries nothing but its state from line to line |
| Cgi.ParseLinesCons | src/cgi_handlers.rs:52-70 | the loop read from the front: the rest of the output is parsed from the state the first line leaves |
| Cgi.FieldIntoEmpty | src/cgi_handlers.rs:58-65 | a field line into no headers leaves exactly that header |
| Cgi.BlankThenText | src/cgi_handlers.rs:54-69 | an empty line ends the header section, and the next line goes to the body followed by a line feed |
| Cgi.ParseFieldBlankText | src/cgi_handlers.rs:52-70 | a field line, an empty line and a text line give one header and one body line |
| Cgi.OneFieldOneLine | src/cgi_handlers.rs:51-70 | output `name: value` CRLF CRLF `text` LF gives the header `name` with the value `value`, and the body `text` LF |
| Cgi.ScriptPathRelative | src/cgi_handlers.rs:18 | a leading `/` makes no difference: the script is always looked up under the working directory |
| Cgi.ReadOutput | src/cgi_handlers.rs:52-70 | the output loop leaves the writer's headers and body as `ParseLines` says, and keeps its status |
| Cgi.HandleCgi | src/cgi_handlers.rs:7-80 | the interpreter is started with the script's path under the working directory as its argument, the environment built and the request body on stdin. Its headers are added. On success its body lines are added; on failure the response becomes a 404. Either way the state is stored |

## Left out

- System calls: epoll, sockets and `read`/`accept`/`write_all`/`shutdown`/`try_clone` are not modelled as I/O. Registrations are a ghost map, and the results of `read` and `accept` are parameters. A failed `write_all` (which panics through `unwrap`) is not modelled. `shutdown`'s result is discarded by the source, so its failure changes nothing. A failed `try_clone` is not modelled: in the source it is returned from `read_cb` and `run_all`'s `unwrap` panics.
- `unwrap` panics on `modify_interest`/`remove_interest` become preconditions that the id is registered. The reactor's invariant discharges them.
- The `Mutex`/`lazy_static` globals are the fields of one `Reactor` object; locking and poisoning are not modelled.
- The `httparse` tokenizer is replaced by its verdict (`ParseOutcome`), because it is an external crate. Its 64-header limit is part of that verdict.
- `parse_multipart` and the multipart crate: external parsing with no state of the server's own.
- `JsonValue` and `HttpStatus`: the JSON dump is given as text, and `HttpStatus::from_code` is the `lookup` parameter.
- The filesystem (`fs::read_to_string`, `current_dir`) is replaced by `FileOutcome` and a `cwd` parameter.
- The CGI child process (spawning, stdin, waiting) is given as its output and exit status. Its stderr and the inherited parent environment are not modelled.
- HashMap iteration order is an `order` parameter that lists every key once, so the results hold for every order. It is ghost for `Excute`, `WriteCb` and `OnWritable`, and a compiled parameter that the loop walks for `SetEnvironment` and `HandleCgi`.
- Handlers are the sequence of writer calls they make (`Handler`), so handlers that read the request or branch on it are not modelled.
- The 4096-byte read buffer is not modelled: any chunk length is allowed.
- Logging (`println!`/`eprintln!`) and the demo program are not modelled.
- `ParseUsize` is `usize::from_str` on a 64-bit target.
- Responses.ResponseWriter.ExecuteHtmlFile: the path is not modelled, only what the filesystem says about it.
- Cgi.HandleCgi: the script's stdout is given already decoded; the lossy UTF-8 replacement of invalid bytes is not modelled.
- Cgi.HandleCgi: a failure to get the working directory, spawn the script, write its stdin or read its output, is not modelled: the source panics on each of them (`map_err` then `unwrap`) before touching the writer. The model covers a script that ran.
- Cgi.EnvName: only ASCII letters are upper-cased, because header names are ASCII tokens; Unicode upper-casing beyond ASCII is not modelled.
- Cgi.ScriptPath: `Path::join` is string concatenation with `/`; path normalisation is not modelled.
- `src/cgi_handlers.rs` is not declared as a module of the crate and calls the writer's private `write`; it is modelled as written.
- Reactor.Reactor.RunBatch: states only that the invariant holds, that servers and routes are unchanged and how many responses at most were sent, not the per-event effects. Those are `Step`'s contract.
- Reactor.Reactor.Step: the connection counter is unbounded, so wrap-around of the `u64` counter is not modelled.
- Reactor.Reactor.Step: a read error other than would-block is returned and ends the batch. In the source `run_all` then panics, which is not modelled further.
