/**
 * The connection read state machine of `src/request.rs`. A `Request` takes one
 * chunk of bytes per readable event. Until its head is complete each chunk goes
 * to the HTTP tokenizer; after that, chunks are body bytes. Once the head is
 * complete and the body has reached the Content-Length (section 8.6 of
 * RFC 9110), the request is dispatched to the route registered for
 * `path + "." + server_id`, or answered with 404, and the connection switches
 * to write interest.
 */
module Requests {
  import opened Wrappers
  import opened Utf8
  import opened Text
  import opened Responses

  // ---------------------------------------------------------------------------
  // The readiness queue

  /** The readiness a registered descriptor waits for. */
  datatype Interest = Read | Write

  /** The epoll instance: which event ids are registered, and for what. */
  class Poller {
    ghost var interest: map<nat, Interest>

    constructor ()
      ensures interest == map[]
    {
      interest := map[];
    }

    /** `add_interest`: register a new descriptor under `id`. */
    method Add(id: nat, i: Interest)
      modifies this
      ensures interest == old(interest)[id := i]
    {
      interest := interest[id := i];
    }

    /** `modify_interest`: re-arm a registered descriptor (fails on an unknown one). */
    method Modify(id: nat, i: Interest)
      requires id in interest
      modifies this
      ensures interest == old(interest)[id := i]
    {
      interest := interest[id := i];
    }

    /** `remove_interest`: deregister a registered descriptor (fails on an unknown one). */
    method Remove(id: nat)
      requires id in interest
      modifies this
      ensures interest == old(interest) - {id}
    {
      interest := interest - {id};
    }

    /** Closing the last descriptor of a connection drops its registration, if any. */
    method Close(id: nat)
      modifies this
      ensures interest == old(interest) - {id}
    {
      interest := interest - {id};
    }
  }

  // ---------------------------------------------------------------------------
  // Inputs from the outside world

  /** One header as the tokenizer reports it: its name and its raw value bytes. */
  datatype RawHeader = RawHeader(name: string, value: seq<byte>)

  /** What `httparse::Request::parse` reports on one chunk. */
  datatype ParseOutcome =
    | Complete(headersLen: nat, httpMethod: Option<string>, path: Option<string>, version: Option<nat>, fields: seq<RawHeader>)
    | Partial
    | ParseError

  /** What one `read` on the connection returns. */
  datatype ReadOutcome = Received(bytes: seq<byte>) | Failed(error: IoError)

  /** A route handler, as the sequence of calls it makes on its writer. */
  datatype Handler = Handler(ops: seq<WriterOp>)

  // ---------------------------------------------------------------------------
  // Maps filled by successive inserts

  /** Whether an entry writes key `k`. */
  predicate Sets(e: Option<(string, string)>, k: string) {
    e.Some? && e.value.0 == k
  }

  /**
   * `m` after inserting, in order, the entry each item yields (items that
   * yield none are skipped).
   */
  function Insert<T>(m: map<string, string>, items: seq<T>, entry: T -> Option<(string, string)>): map<string, string> {
    if items == [] then m
    else
      var before := Insert(m, items[..|items| - 1], entry);
      match entry(items[|items| - 1])
      case Some((k, v)) => before[k := v]
      case None => before
  }

  /** The last item that writes a key decides its value. */
  lemma {:induction false} InsertLastWins<T>(m: map<string, string>, items: seq<T>, entry: T -> Option<(string, string)>,
                                               i: nat, k: string, v: string)
    requires i < |items| && entry(items[i]) == Some((k, v))
    requires forall j :: i < j < |items| ==> !Sets(entry(items[j]), k)
    ensures k in Insert(m, items, entry) && Insert(m, items, entry)[k] == v
  {
    var init := items[..|items| - 1];
    if i < |items| - 1 {
      assert forall j :: i < j < |init| ==> init[j] == items[j];
      InsertLastWins(m, init, entry, i, k, v);
      assert !Sets(entry(items[|items| - 1]), k);
    }
  }

  /** A key no item writes keeps whatever `m` had for it. */
  lemma {:induction false} InsertUntouched<T>(m: map<string, string>, items: seq<T>, entry: T -> Option<(string, string)>, k: string)
    requires forall j :: 0 <= j < |items| ==> !Sets(entry(items[j]), k)
    ensures (k in Insert(m, items, entry)) == (k in m)
    ensures k in m ==> Insert(m, items, entry)[k] == m[k]
  {
    if items != [] {
      var init := items[..|items| - 1];
      assert forall j :: 0 <= j < |init| ==> init[j] == items[j];
      InsertUntouched(m, init, entry, k);
      assert !Sets(entry(items[|items| - 1]), k);
    }
  }

  /** A tokenizer header as a map entry: skipped when its value is not UTF-8. */
  function HeaderEntry(h: RawHeader): Option<(string, string)> {
    match Decode(h.value)
    case Some(v) => Some((h.name, v))
    case None => None
  }

  /** One `;`-piece of a Cookie header: trimmed, then cut at its first `=`; no `=`, no entry. */
  function CookieEntry(piece: string): Option<(string, string)> {
    SplitOnce(Trim(piece), '=')
  }

  /**
   * Later duplicate headers overwrite earlier ones: the value of a name is the
   * last UTF-8 value given for it.
   */
  lemma HeaderLastWins(m: map<string, string>, fields: seq<RawHeader>, i: nat)
    requires i < |fields| && Decode(fields[i].value).Some?
    requires forall j :: i < j < |fields| && fields[j].name == fields[i].name ==> Decode(fields[j].value).None?
    ensures var h := Insert(m, fields, HeaderEntry);
      fields[i].name in h && h[fields[i].name] == Decode(fields[i].value).value
  {
    InsertLastWins(m, fields, HeaderEntry, i, fields[i].name, Decode(fields[i].value).value);
  }

  /** Values that are not UTF-8 are skipped: a name that only has such values is never added. */
  lemma HeaderSkipsNonUtf8(m: map<string, string>, fields: seq<RawHeader>, name: string)
    requires forall j :: 0 <= j < |fields| && fields[j].name == name ==> Decode(fields[j].value).None?
    ensures (name in Insert(m, fields, HeaderEntry)) == (name in m)
  {
    InsertUntouched(m, fields, HeaderEntry, name);
  }

  /** A piece `name=value` yields exactly that entry, whatever `value` holds; `name=` yields an empty value. */
  lemma CookieEntryOf(name: string, value: string)
    requires name != [] && !IsWhitespace(name[0]) && '=' !in name
    requires value == [] || !IsWhitespace(value[|value| - 1])
    ensures CookieEntry(name + "=" + value) == Some((name, value))
  {
    var text := name + "=" + value;
    assert text == [] + text + [];
    assert text[0] == name[0];
    assert text[|text| - 1] == if value == [] then '=' else value[|value| - 1];
    TrimOf([], text, []);
    assert text == name + ['='] + value;
    SplitOnceOf(name, '=', value);
  }

  /**
   * A cookie the writer sets with `set_cookie` reads back as that cookie: the
   * value may itself hold `=`, since only the first `=` separates.
   */
  lemma CookieRoundTrip(m: map<string, string>, name: string, value: string)
    requires name != [] && !IsWhitespace(name[0]) && '=' !in name && ';' !in name
    requires (value == [] || !IsWhitespace(value[|value| - 1])) && ';' !in value
    ensures Insert(m, Split(CookieText(name, value, []), ';'), CookieEntry) == m[name := value]
  {
    var text := name + "=" + value;
    assert CookieText(name, value, []) == text;
    assert ';' !in text by {
      assert text == name + ['='] + value;
    }
    SplitWithout(text, ';');
    CookieEntryOf(name, value);
    InsertOne(m, text, CookieEntry);
  }

  /** One more item: its entry, if any, is inserted last. */
  lemma InsertSnoc<T>(m: map<string, string>, items: seq<T>, entry: T -> Option<(string, string)>, i: nat)
    requires i < |items|
    ensures Insert(m, items[..i + 1], entry) == match entry(items[i])
      case Some((k, v)) => Insert(m, items[..i], entry)[k := v]
      case None => Insert(m, items[..i], entry)
  {
    assert items[..i + 1][..i] == items[..i];
  }

  lemma InsertOne<T>(m: map<string, string>, item: T, entry: T -> Option<(string, string)>)
    ensures Insert(m, [item], entry) == match entry(item) case Some((k, v)) => m[k := v] case None => m
  {
    assert [item][..0] == [];
  }

  // ---------------------------------------------------------------------------
  // Pure parts of the request

  /**
   * `content_length`: the `Content-Length` value read as a 64-bit unsigned
   * decimal, or 0 when the header is absent or unparsable.
   */
  function ContentLength(headers: map<string, string>): (n: nat)
    ensures n <= UsizeMax
  {
    if "Content-Length" in headers then ParseUsize(headers["Content-Length"]).GetOr(0) else 0
  }

  /** A Content-Length written in decimal is read back as its value. */
  lemma ContentLengthOf(headers: map<string, string>, n: nat)
    requires n <= UsizeMax
    ensures ContentLength(headers["Content-Length" := Decimal(n)]) == n
  {
    ParseDecimal(n);
  }

  /** An unparsable Content-Length counts as none at all. */
  lemma ContentLengthInvalid(headers: map<string, string>)
    requires "Content-Length" in headers && ParseUsize(headers["Content-Length"]).None?
    ensures ContentLength(headers) == ContentLength(headers - {"Content-Length"})
  {
  }

  const BoundaryPrefix := "boundary="

  /** The parameter value of a `boundary=` part: the prefix removed, surrounding quotes stripped. */
  function BoundaryValue(part: string): string
    requires StartsWith(part, BoundaryPrefix)
  {
    TrimMatches(part[|BoundaryPrefix|..], '"')
  }

  /** One `;`-part of a Content-Type value, looked at as a `boundary=` parameter. */
  function BoundaryOf(part: string): Option<string> {
    var p := Trim(part);
    if StartsWith(p, BoundaryPrefix) then Some(BoundaryValue(p)) else None
  }

  /** `find_map` over the `;`-parts of a Content-Type value. */
  function FindBoundary(parts: seq<string>): Option<string> {
    if parts == [] then None
    else match BoundaryOf(parts[0])
      case Some(b) => Some(b)
      case None => FindBoundary(parts[1..])
  }

  /** `get_boundary`: the `boundary=` parameter of the Content-Type header (section 5.1.1 of RFC 2046). */
  function GetBoundary(headers: map<string, string>): Option<string> {
    if "Content-Type" in headers then FindBoundary(Split(headers["Content-Type"], ';')) else None
  }

  /** The first trimmed part that starts with `boundary=` gives the boundary. */
  lemma {:induction false} BoundaryFirst(parts: seq<string>, i: nat)
    requires i < |parts| && BoundaryOf(parts[i]).Some?
    requires forall j :: 0 <= j < i ==> BoundaryOf(parts[j]).None?
    ensures FindBoundary(parts) == BoundaryOf(parts[i])
  {
    if i > 0 {
      var rest := parts[1..];
      assert BoundaryOf(parts[0]).None?;
      assert FindBoundary(parts) == FindBoundary(rest);
      assert rest[i - 1] == parts[i];
      forall j | 0 <= j < i - 1
        ensures BoundaryOf(rest[j]).None?
      {
        assert rest[j] == parts[j + 1];
      }
      BoundaryFirst(rest, i - 1);
    }
  }

  /** With no such part there is no boundary. */
  lemma {:induction false} BoundaryNone(parts: seq<string>)
    requires forall j :: 0 <= j < |parts| ==> BoundaryOf(parts[j]).None?
    ensures FindBoundary(parts) == None
  {
    if parts != [] {
      assert BoundaryOf(parts[0]).None?;
      assert forall j :: 0 <= j < |parts| - 1 ==> parts[1..][j] == parts[j + 1];
      BoundaryNone(parts[1..]);
    }
  }

  /** A quoted boundary loses its quotes: `boundary="b"` gives `b`. */
  lemma QuotedBoundary(b: string)
    requires b != [] && b[0] != '"' && b[|b| - 1] != '"'
    ensures var part := BoundaryPrefix + "\"" + b + "\"";
      StartsWith(part, BoundaryPrefix) && BoundaryValue(part) == b
  {
    var q := "\"";
    var part := BoundaryPrefix + q + b + q;
    assert part == BoundaryPrefix + (q + (b + q));
    assert part[|BoundaryPrefix|..] == q + (b + q);
    TrimStartOf(q, b + q, x => x == '"');
    TrimEndOf(b, q, x => x == '"');
  }

  /** The key a route is stored and looked up under: `path + "." + server_id`. */
  function RouteKey(path: string, serverId: nat): string {
    path + "." + Decimal(serverId)
  }

  /**
   * Decimal ids hold no `.`, so the key determines both the path and the
   * server: a route of one server never answers another server's request,
   * and `/a` never answers `/a/`.
   */
  lemma RouteKeyInjective(p1: string, id1: nat, p2: string, id2: nat)
    requires RouteKey(p1, id1) == RouteKey(p2, id2)
    ensures p1 == p2 && id1 == id2
  {
    DecimalHasNoDot(id1);
    DecimalHasNoDot(id2);
    RSplitOnceOf(p1, '.', Decimal(id1));
    RSplitOnceOf(p2, '.', Decimal(id2));
    DecimalInjective(id1, id2);
  }

  lemma DecimalHasNoDot(n: nat)
    ensures '.' !in Decimal(n)
  {
    var d := Decimal(n);
    assert forall i :: 0 <= i < |d| ==> d[i] != '.';
  }

  // ---------------------------------------------------------------------------
  // The request state

  /** The fields of a `Request` other than its stream and server id. */
  datatype RequestState = RequestState(
    headerDone: bool,
    httpMethod: string,
    path: string,
    body: seq<byte>,
    protocol: string,
    headers: map<string, string>,
    cookies: map<string, string>)

  /** `Request::new`: nothing parsed, empty body. */
  const Fresh := RequestState(false, "", "", [], "", map[], map[])

  /** Before the head is complete, nothing but the body has been filled in. */
  predicate Pristine(st: RequestState) {
    !st.headerDone ==> st.httpMethod == "" && st.path == "" && st.protocol == "" && st.headers == map[] && st.cookies == map[]
  }

  /** `format!("HTTP/1.{}", v)`, or empty without a version. */
  function ProtocolOf(version: Option<nat>): string {
    match version
    case Some(v) => "HTTP/1." + Decimal(v)
    case None => ""
  }

  /** The cookie map after reading the Cookie header, if there is one. */
  function CookiesOf(headers: map<string, string>, cookies: map<string, string>): map<string, string> {
    if "Cookie" in headers then Insert(cookies, Split(headers["Cookie"], ';'), CookieEntry) else cookies
  }

  /**
   * `parse_request` on one chunk: a complete head fills in the request line,
   * headers and cookies, marks the head done and keeps the bytes after the
   * head as body; a partial head appends the whole chunk to the body; a
   * tokenizer error changes nothing.
   */
  function Parse(st: RequestState, data: seq<byte>, outcome: ParseOutcome): RequestState {
    match outcome
    case Complete(len, m, p, v, fields) =>
      var headers := Insert(st.headers, fields, HeaderEntry);
      RequestState(true, m.GetOr(""), p.GetOr(""), if len < |data| then st.body + data[len..] else st.body,
                   ProtocolOf(v), headers, CookiesOf(headers, st.cookies))
    case Partial => st.(body := st.body + data)
    case ParseError => st
  }

  /**
   * What a successful `read` of `chunk` does to the fields: nothing for an
   * empty chunk; the tokenizer while the head is not done; plain body bytes
   * afterwards.
   */
  function Absorb(st: RequestState, chunk: seq<byte>, outcome: ParseOutcome): RequestState {
    if chunk == [] then st
    else if !st.headerDone then Parse(st, chunk, outcome)
    else st.(body := st.body + chunk)
  }

  /** A run of reads, each with the tokenizer's verdict on its chunk. */
  function AbsorbAll(st: RequestState, chunks: seq<seq<byte>>, outcomes: seq<ParseOutcome>): RequestState
    requires |chunks| == |outcomes|
    decreases |chunks|
  {
    if chunks == [] then st else AbsorbAll(Absorb(st, chunks[0], outcomes[0]), chunks[1..], outcomes[1..])
  }

  function Flatten(chunks: seq<seq<byte>>): seq<byte>
    decreases |chunks|
  {
    if chunks == [] then [] else chunks[0] + Flatten(chunks[1..])
  }

  /** Whether the request is dispatched: head done and body at least Content-Length long. */
  predicate ReadyToDispatch(st: RequestState) {
    st.headerDone && |st.body| >= ContentLength(st.headers)
  }

  /**
   * Across any run of reads, `header_done` never goes back to false, the body
   * only grows by appending, and nothing but the body is filled in before the
   * head is done.
   */
  lemma {:induction false} AbsorbAllGrows(st: RequestState, chunks: seq<seq<byte>>, outcomes: seq<ParseOutcome>)
    requires |chunks| == |outcomes|
    ensures var r := AbsorbAll(st, chunks, outcomes);
      (st.headerDone ==> r.headerDone) && st.body <= r.body && (Pristine(st) ==> Pristine(r))
    decreases |chunks|
  {
    if chunks != [] {
      var next := Absorb(st, chunks[0], outcomes[0]);
      assert st.body <= next.body;
      AbsorbAllGrows(next, chunks[1..], outcomes[1..]);
    }
  }

  /**
   * Once the head is done the tokenizer is never consulted again: later reads
   * only append their bytes to the body, in order.
   */
  lemma {:induction false} AbsorbAllAfterHead(st: RequestState, chunks: seq<seq<byte>>, outcomes: seq<ParseOutcome>)
    requires |chunks| == |outcomes| && st.headerDone
    ensures AbsorbAll(st, chunks, outcomes) == st.(body := st.body + Flatten(chunks))
    decreases |chunks|
  {
    if chunks == [] {
      assert st.body + Flatten(chunks) == st.body;
    } else {
      var next := Absorb(st, chunks[0], outcomes[0]);
      AbsorbAllAfterHead(next, chunks[1..], outcomes[1..]);
      assert next.body + Flatten(chunks[1..]) == st.body + Flatten(chunks) by {
        assert next.body == st.body + chunks[0];
        assert Flatten(chunks) == chunks[0] + Flatten(chunks[1..]);
      }
    }
  }

  /**
   * Fragmented heads, as written: a chunk the tokenizer finds partial goes to
   * the body and is never offered to the tokenizer again, so when the next
   * chunk completes a head, the fragment stays in front of the body.
   */
  lemma FragmentedHead(first: seq<byte>, second: seq<byte>, len: nat, m: Option<string>, p: Option<string>,
                       v: Option<nat>, fields: seq<RawHeader>)
    requires first != [] && len < |second|
    ensures var r := Absorb(Absorb(Fresh, first, Partial), second, Complete(len, m, p, v, fields));
      r.headerDone && r.body == first + second[len..]
  {
  }

  // ---------------------------------------------------------------------------
  // Dispatch

  /** A writer's state before any call. */
  const EmptySnapshot := Snapshot([], map[], None)

  /** What `write_status(NotFound)` stores from a fresh writer. */
  const NotFoundSnapshot := Snapshot(Encode(NotFound.reason), map[], Some(NotFound.code))

  /** What a dispatch stores: the handler's last terminal copy, or the 404 copy on a miss. */
  function Served(handler: Option<Handler>): Option<Snapshot> {
    match handler
    case Some(h) => Run(EmptySnapshot, h.ops).1
    case None => Some(NotFoundSnapshot)
  }

  function Lookup(routes: map<string, Handler>, key: string): Option<Handler> {
    if key in routes then Some(routes[key]) else None
  }

  /** The write-back table after a dispatch of connection `eventId`. */
  function Dispatched(pending: map<nat, Snapshot>, eventId: nat, handler: Option<Handler>): map<nat, Snapshot> {
    match Served(handler)
    case Some(s) => pending[eventId := s]
    case None => pending
  }

  lemma Decimal404()
    ensures Decimal(404) == "404"
  {
    assert Decimal(40) == Decimal(4) + ['0'];
    assert Decimal(404) == Decimal(40) + ['4'];
  }

  /** The 404 status line. */
  lemma NotFoundStatusLine()
    ensures StatusLine(NotFound) == "HTTP/1.1 404 Not Found\r\n"
  {
    Decimal404();
    assert StatusLine(NotFound) == "HTTP/1.1 " + "404" + " " + "Not Found" + "\r\n";
  }

  /**
   * A miss is answered with the 404 status line (see `NotFoundStatusLine`),
   * no field lines, an empty line, and the reason phrase as body.
   */
  lemma NotFoundWire(lookup: u16 -> Status)
    requires lookup(404) == NotFound
    ensures Served(None) == Some(NotFoundSnapshot) && IsNameOrder([], NotFoundSnapshot.headers)
    ensures Wire(NotFoundSnapshot, lookup, []) == Encode(StatusLine(NotFound) + "\r\n") + Encode("Not Found")
  {
    NoHeadersWire(NotFoundSnapshot, lookup);
  }

  // ---------------------------------------------------------------------------
  // The request

  class Request {
    var headerDone: bool
    const serverId: nat
    var httpMethod: string
    var path: string
    var body: seq<byte>
    var protocol: string
    var headers: map<string, string>
    var cookies: map<string, string>

    function State(): RequestState
      reads this
    {
      RequestState(headerDone, httpMethod, path, body, protocol, headers, cookies)
    }

    /** `Request::new`: a connection accepted on server `serverId`. */
    constructor (serverId: nat)
      ensures this.serverId == serverId && State() == Fresh
    {
      this.serverId := serverId;
      headerDone := false;
      httpMethod := "";
      path := "";
      body := [];
      protocol := "";
      headers := map[];
      cookies := map[];
    }

    /** The tokenizer's headers inserted one by one. */
    method InsertHeaders(fields: seq<RawHeader>)
      modifies this
      ensures State() == old(State()).(headers := Insert(old(headers), fields, HeaderEntry))
    {
      var i := 0;
      while i < |fields|
        invariant i <= |fields|
        invariant State() == old(State()).(headers := Insert(old(headers), fields[..i], HeaderEntry))
      {
        assert fields[..i + 1][..i] == fields[..i];
        match Decode(fields[i].value) {
          case Some(value) => headers := headers[fields[i].name := value];
          case None =>
        }
        i := i + 1;
      }
      assert fields[..i] == fields;
    }

    /** The `;`-pieces of a Cookie header inserted one by one. */
    method InsertCookies(pieces: seq<string>)
      modifies this
      ensures State() == old(State()).(cookies := Insert(old(cookies), pieces, CookieEntry))
    {
      var i := 0;
      while i < |pieces|
        invariant i <= |pieces|
        invariant State() == old(State()).(cookies := Insert(old(cookies), pieces[..i], CookieEntry))
      {
        InsertSnoc(old(cookies), pieces, CookieEntry, i);
        match SplitOnce(Trim(pieces[i]), '=') {
          case Some((key, value)) => cookies := cookies[key := value];
          case None =>
        }
        i := i + 1;
      }
      assert pieces[..i] == pieces;
    }

    /** `parse_request` on `data`, the tokenizer having reported `outcome`. */
    method ParseRequest(data: seq<byte>, outcome: ParseOutcome)
      modifies this
      ensures State() == Parse(old(State()), data, outcome)
    {
      match outcome {
        case Complete(len, m, p, v, fields) =>
          httpMethod := m.GetOr("");
          path := p.GetOr("");
          protocol := ProtocolOf(v);
          InsertHeaders(fields);
          if "Cookie" in headers {
            InsertCookies(Split(headers["Cookie"], ';'));
          }
          headerDone := true;
          if len < |data| {
            body := body + data[len..];
          }
        case Partial =>
          body := body + data;
        case ParseError =>
      }
    }

    /**
     * `read_cb` for connection `eventId`: `read` is what the socket returned
     * and `parse` what the tokenizer reports on it if it is consulted. A
     * would-block or empty read changes nothing; another read error is
     * returned and changes nothing; otherwise the chunk is absorbed, and the
     * request is dispatched exactly when it is ready, else read interest is
     * re-armed.
     */
    method ReadCb(eventId: nat, read: ReadOutcome, parse: ParseOutcome, routes: map<string, Handler>,
                  table: WriteTable, poller: Poller) returns (r: Result<(), IoError>)
      requires eventId in poller.interest
      modifies this, table, poller
      ensures read.Failed? ==> r == (if read.error.kind == WouldBlockKind then Ok(()) else Err(read.error))
      ensures read.Received? ==> r == Ok(()) && State() == Absorb(old(State()), read.bytes, parse)
      ensures read.Failed? || read.bytes == [] ==>
        State() == old(State()) && table.pending == old(table.pending) && poller.interest == old(poller.interest)
      ensures read.Received? && read.bytes != [] && ReadyToDispatch(State()) ==>
        && table.pending == Dispatched(old(table.pending), eventId, Lookup(routes, RouteKey(path, serverId)))
        && poller.interest == old(poller.interest)[eventId := Write]
      ensures read.Received? && read.bytes != [] && !ReadyToDispatch(State()) ==>
        && table.pending == old(table.pending)
        && poller.interest == old(poller.interest)[eventId := Read]
    {
      var buffer: seq<byte>;
      match read {
        case Received(bytes) =>
          buffer := bytes;
        case Failed(e) =>
          if e.kind == WouldBlockKind {
            return Ok(());
          }
          return Err(e);
      }
      if buffer != [] {
        if !headerDone {
          ParseRequest(buffer, parse);
        } else {
          body := body + buffer;
        }
        if headerDone && |body| >= ContentLength(headers) {
          HandleCompleteRequest(eventId, routes, table, poller);
        } else {
          poller.Modify(eventId, Read);
        }
      }
      r := Ok(());
    }

    /**
     * `handle_complete_request`: a fresh writer runs the handler registered
     * for `path + "." + server_id`, or stores a 404 when there is none; then
     * the connection waits for write readiness.
     */
    method HandleCompleteRequest(eventId: nat, routes: map<string, Handler>, table: WriteTable, poller: Poller)
      requires eventId in poller.interest
      modifies table, poller
      ensures table.pending == Dispatched(old(table.pending), eventId, Lookup(routes, RouteKey(path, serverId)))
      ensures poller.interest == old(poller.interest)[eventId := Write]
    {
      var writer := new ResponseWriter(table, eventId);
      var key := path + "." + Decimal(serverId);
      if key in routes {
        writer.Handle(routes[key].ops);
      } else {
        writer.WriteStatus(NotFound);
      }
      poller.Modify(eventId, Write);
    }

    /**
     * `write_cb`: when a response is stored for `eventId` it is serialised,
     * sent (`sent`) and the connection deregistered; the entry is then removed
     * whether or not it was there, and no other entry changes. `order` is the
     * order the header map yields its names in.
     */
    method WriteCb(eventId: nat, table: WriteTable, poller: Poller, lookup: u16 -> Status)
      returns (sent: Option<seq<byte>>, ghost order: seq<string>)
      requires eventId in poller.interest
      modifies table, poller
      ensures table.pending == old(table.pending) - {eventId}
      ensures eventId in old(table.pending) ==>
        && IsNameOrder(order, old(table.pending)[eventId].headers)
        && sent == Some(Wire(old(table.pending)[eventId], lookup, order))
        && poller.interest == old(poller.interest) - {eventId}
      ensures eventId !in old(table.pending) ==> sent == None && poller.interest == old(poller.interest)
    {
      sent, order := None, [];
      if eventId in table.pending {
        var wire;
        wire, order := Excute(table.pending[eventId], lookup);
        sent := Some(wire);
        poller.Remove(eventId);
      }
      table.pending := table.pending - {eventId};
    }
  }
}
