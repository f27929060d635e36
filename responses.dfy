/**
 * The response writer of `src/response_writer.rs`: a per-connection buffer of
 * status, multi-valued headers and body that a handler fills in, and that
 * every terminal call copies into the shared write-back table (`WRITE_CTX`),
 * keyed by the connection's event id. When the socket becomes writable the
 * stored copy is serialised (`excute`) as an HTTP/1.1 response: status line,
 * one field line per header value, a blank line, then the body (sections 2.1
 * and 4 of RFC 9112).
 */
module Responses {
  import opened Wrappers
  import opened Utf8
  import opened Text

  type u16 = x: int | 0 <= x < 0x1_0000

  /** An `HttpStatus`: its numeric code and its reason phrase. */
  datatype Status = Status(code: u16, reason: string)

  /** `HttpStatus::NotFound`. */
  const NotFound := Status(404, "Not Found")

  datatype ErrorKind = NotFoundKind | WouldBlockKind | OtherKind

  /** An `io::Error`: its kind and its message. */
  datatype IoError = IoError(kind: ErrorKind, message: string)

  /** What the filesystem says about the file `execute_html_file` is given. */
  datatype FileOutcome = Missing | Unreadable(error: IoError) | Contents(text: string)

  /** What `execute_html_file` appends to the body, and reports, for a missing file: `File not found`. */
  const FileNotFound: string := "File" + " not found"

  type Headers = map<string, seq<string>>

  const SetCookieName := "Set-Cookie"
  const ContentTypeName := "Content-Type"

  /** The values recorded under `name`, none when the name is absent. */
  function ValuesOf(h: Headers, name: string): seq<string> {
    if name in h then h[name] else []
  }

  /** `h.entry(name).or_insert_with(Vec::new).push(value)`. */
  function AppendValue(h: Headers, name: string, value: string): Headers {
    h[name := ValuesOf(h, name) + [value]]
  }

  /** The state a terminal call copies into the write-back table. */
  datatype Snapshot = Snapshot(body: seq<byte>, headers: Headers, status: Option<u16>)

  // ---------------------------------------------------------------------------
  // Set-Cookie values (section 4.1 of RFC 6265)

  type Attribute = (string, Option<string>)


  /** The attribute texts of `attrs`, in order. */
  function AttributesText(attrs: seq<Attribute>): string {
    if attrs == [] then "" else AttributesText(attrs[..|attrs| - 1]) + AttributeText(attrs[|attrs| - 1])
  }

  /** The `Set-Cookie` value `set_cookie_with_attributes` builds. */
  function CookieText(name: string, value: string, attrs: seq<Attribute>): string {
    name + "=" + value + AttributesText(attrs)
  }

  /** One more attribute adds its text at the end. */
  lemma CookieTextSnoc(name: string, value: string, attrs: seq<Attribute>, i: nat)
    requires i < |attrs|
    ensures CookieText(name, value, attrs[..i + 1]) == CookieText(name, value, attrs[..i]) + match attrs[i].1
      case Some(v) => "; " + attrs[i].0 + "=" + v
      case None => "; " + attrs[i].0
  {
    assert attrs[..i + 1][..i] == attrs[..i];
    var head, rest := name + "=" + value, AttributesText(attrs[..i]);
    assert CookieText(name, value, attrs[..i + 1]) == head + (rest + AttributeText(attrs[i]));
    assert head + (rest + AttributeText(attrs[i])) == (head + rest) + AttributeText(attrs[i]);
    AttributeTextOf(attrs[i]);
  }

  /** An attribute's text is `; attr=val`, or `; attr` without a value. */
  lemma AttributeTextOf(a: Attribute)
    ensures AttributeText(a) == match a.1
      case Some(v) => "; " + a.0 + "=" + v
      case None => "; " + a.0
  {
    match a.1 {
      case Some(v) =>
        assert [';'] + (" " + a.0 + "=" + v) == "; " + a.0 + "=" + v;
      case None =>
        assert [';'] + (" " + a.0) == "; " + a.0;
    }
  }

  /** `" attr=val"`, or `" attr"` for an attribute without a value. */
  function AttributePiece(a: Attribute): string {
    match a.1
    case Some(v) => " " + a.0 + "=" + v
    case None => " " + a.0
  }

  /** `"; attr=val"`, or `"; attr"`: the piece with its separator. */
  function AttributeText(a: Attribute): string {
    [';'] + AttributePiece(a)
  }

  /** The pieces of all attributes, in order. */
  function AttributePieces(attrs: seq<Attribute>): (r: seq<string>)
    ensures |r| == |attrs|
    ensures forall i :: 0 <= i < |attrs| ==> r[i] == AttributePiece(attrs[i])
  {
    if attrs == [] then [] else AttributePieces(attrs[..|attrs| - 1]) + [AttributePiece(attrs[|attrs| - 1])]
  }

  predicate NoSemicolon(a: Attribute) {
    ';' !in a.0 && (a.1.Some? ==> ';' !in a.1.value)
  }

  /**
   * Read back on `;`, a Set-Cookie value falls apart into `name=value` and
   * then one piece per attribute, in the order given: the attributes never
   * merge into one another or into the pair.
   */
  lemma CookieTextSplit(name: string, value: string, attrs: seq<Attribute>)
    requires ';' !in name && ';' !in value
    requires forall i :: 0 <= i < |attrs| ==> NoSemicolon(attrs[i])
    ensures Split(CookieText(name, value, attrs), ';') == [name + "=" + value] + AttributePieces(attrs)
  {
    var head := name + "=" + value;
    assert ';' !in head;
    JoinAttributes(head, attrs);
    PiecesHaveNoSemicolon(head, attrs);
    SplitJoin([head] + AttributePieces(attrs), ';');
  }

  lemma PiecesHaveNoSemicolon(head: string, attrs: seq<Attribute>)
    requires ';' !in head
    requires forall i :: 0 <= i < |attrs| ==> NoSemicolon(attrs[i])
    ensures var pieces := [head] + AttributePieces(attrs);
      forall i :: 0 <= i < |pieces| ==> ';' !in pieces[i]
  {
    var pieces := [head] + AttributePieces(attrs);
    forall i | 0 <= i < |pieces| ensures ';' !in pieces[i] {
      if i > 0 {
        assert pieces[i] == AttributePiece(attrs[i - 1]);
        PieceHasNoSemicolon(attrs[i - 1]);
      }
    }
  }

  lemma PieceHasNoSemicolon(a: Attribute)
    requires NoSemicolon(a)
    ensures ';' !in AttributePiece(a)
  {
  }

  /** Appending attributes is joining their pieces with `;`. */
  lemma {:induction false} JoinAttributes(head: string, attrs: seq<Attribute>)
    ensures Join([head] + AttributePieces(attrs), ';') == head + AttributesText(attrs)
  {
    if attrs == [] {
      assert [head] + AttributePieces(attrs) == [head];
    } else {
      var init := attrs[..|attrs| - 1];
      var last := attrs[|attrs| - 1];
      JoinAttributes(head, init);
      var front := [head] + AttributePieces(init);
      assert [head] + AttributePieces(attrs) == front + [AttributePiece(last)];
      JoinSnoc(front, AttributePiece(last), ';');
    }
  }

  /** Joining with one more piece at the end adds the separator and that piece. */
  lemma {:induction false} JoinSnoc(parts: seq<string>, p: string, sep: char)
    requires |parts| >= 1
    ensures Join(parts + [p], sep) == Join(parts, sep) + [sep] + p
  {
    if |parts| > 1 {
      assert (parts + [p])[1..] == parts[1..] + [p];
      JoinSnoc(parts[1..], p, sep);
    }
  }

  // ---------------------------------------------------------------------------
  // Serialisation (`excute`)

  /** One field line: `name: value` and CRLF. */
  function FieldLine(name: string, value: string): string {
    name + ": " + value + "\r\n"
  }

  /** The field lines of one header, one per value, in the order the values were added. */
  function KeyLines(name: string, values: seq<string>): (r: seq<string>)
    ensures |r| == |values|
    ensures forall i :: 0 <= i < |values| ==> r[i] == FieldLine(name, values[i])
  {
    if values == [] then [] else KeyLines(name, values[..|values| - 1]) + [FieldLine(name, values[|values| - 1])]
  }

  /** The field lines of all headers, taking the names in `order`. */
  function FieldLines(h: Headers, order: seq<string>): seq<string>
    requires forall i :: 0 <= i < |order| ==> order[i] in h
  {
    if order == [] then [] else FieldLines(h, order[..|order| - 1]) + KeyLines(order[|order| - 1], h[order[|order| - 1]])
  }

  function Concat(lines: seq<string>): string {
    if lines == [] then "" else Concat(lines[..|lines| - 1]) + lines[|lines| - 1]
  }

  /** `order` lists every header name exactly once. */
  predicate IsNameOrder(order: seq<string>, h: Headers) {
    (forall i, j :: 0 <= i < j < |order| ==> order[i] != order[j])
    && (forall i :: 0 <= i < |order| ==> order[i] in h)
    && (forall name :: name in h ==> name in order)
  }

  /** `HTTP/1.1 <code> <reason>` and CRLF. */
  function StatusLine(status: Status): string {
    "HTTP/1.1 " + Decimal(status.code) + " " + status.reason + "\r\n"
  }

  /** The status code sent: the one set, or 200. */
  function CodeOf(s: Snapshot): u16 {
    s.status.GetOr(200)
  }

  /**
   * The bytes `excute` writes for snapshot `s` when the header map yields its
   * names in `order`: the status line, the field lines, an empty line, then the
   * body. `lookup` is `HttpStatus::from_code`.
   */
  function Wire(s: Snapshot, lookup: u16 -> Status, order: seq<string>): seq<byte>
    requires forall i :: 0 <= i < |order| ==> order[i] in s.headers
  {
    Encode(StatusLine(lookup(CodeOf(s))) + Concat(FieldLines(s.headers, order)) + "\r\n") + s.body
  }

  lemma {:induction false} ConcatAppend(a: seq<string>, b: seq<string>)
    ensures Concat(a + b) == Concat(a) + Concat(b)
    decreases |b|
  {
    if b == [] {
      assert a + b == a;
    } else {
      var b' := b[..|b| - 1];
      assert (a + b)[..|a + b| - 1] == a + b';
      ConcatAppend(a, b');
    }
  }

  /** `excute`'s inner loop: one field line per value of one header, appended to `text`. */
  method PushKeyLines(text: string, name: string, values: seq<string>) returns (r: string)
    ensures r == text + Concat(KeyLines(name, values))
  {
    r := text;
    var j := 0;
    while j < |values|
      invariant j <= |values|
      invariant r == text + Concat(KeyLines(name, values[..j]))
    {
      KeyLinesSnoc(name, values, j);
      AppendAssoc(text, Concat(KeyLines(name, values[..j])), FieldLine(name, values[j]));
      r := r + FieldLine(name, values[j]);
      j := j + 1;
    }
    assert values[..j] == values;
  }

  /**
   * `excute`'s string building: for each header name (in the map's own
   * iteration order, returned as `order`) and each of its values, one field
   * line; then the status line in front, the empty line and the body. The
   * writing, the shutdown and the deregistration that follow are effects on
   * the socket and the readiness queue.
   */
  method Excute(s: Snapshot, lookup: u16 -> Status) returns (wire: seq<byte>, ghost order: seq<string>)
    ensures IsNameOrder(order, s.headers)
    ensures wire == Wire(s, lookup, order)
  {
    var headersText := "";
    var remaining := s.headers.Keys;
    order := [];
    while remaining != {}
      invariant remaining <= s.headers.Keys
      invariant forall i :: 0 <= i < |order| ==> order[i] in s.headers && order[i] !in remaining
      invariant forall i, j :: 0 <= i < j < |order| ==> order[i] != order[j]
      invariant forall name :: name in s.headers ==> name in order || name in remaining
      invariant headersText == Concat(FieldLines(s.headers, order))
      decreases remaining
    {
      var name :| name in remaining;
      headersText := PushKeyLines(headersText, name, s.headers[name]);
      FieldLinesSnoc(s.headers, order, name);
      order := order + [name];
      remaining := remaining - {name};
    }
    var status := lookup(CodeOf(s));
    var head := "HTTP/1.1 " + Decimal(status.code) + " " + status.reason + "\r\n" + headersText + "\r\n";
    wire := Encode(head) + s.body;
  }

  lemma AppendAssoc(a: string, b: string, c: string)
    ensures a + (b + c) == (a + b) + c
  {
  }

  lemma KeyLinesSnoc(name: string, values: seq<string>, j: nat)
    requires j < |values|
    ensures Concat(KeyLines(name, values[..j + 1])) == Concat(KeyLines(name, values[..j])) + FieldLine(name, values[j])
  {
    assert values[..j + 1][..j] == values[..j];
  }

  lemma FieldLinesSnoc(h: Headers, order: seq<string>, name: string)
    requires forall i :: 0 <= i < |order| ==> order[i] in h
    requires name in h
    ensures Concat(FieldLines(h, order + [name])) == Concat(FieldLines(h, order)) + Concat(KeyLines(name, h[name]))
  {
    assert (order + [name])[..|order|] == order;
    ConcatAppend(FieldLines(h, order), KeyLines(name, h[name]));
  }

  /** The response starts with the status line of the code set, or of 200 when none was. */
  lemma WireStartsWithStatusLine(s: Snapshot, lookup: u16 -> Status, order: seq<string>)
    requires forall i :: 0 <= i < |order| ==> order[i] in s.headers
    ensures var line := Encode(StatusLine(lookup(if s.status.Some? then s.status.value else 200)));
      |line| <= |Wire(s, lookup, order)| && Wire(s, lookup, order)[..|line|] == line
  {
    var line := StatusLine(lookup(CodeOf(s)));
    var rest := Concat(FieldLines(s.headers, order)) + "\r\n";
    assert line + Concat(FieldLines(s.headers, order)) + "\r\n" == line + rest;
    EncodeAppend(line, rest);
  }

  /** After the head the response carries the body, byte for byte. */
  lemma WireEndsWithBody(s: Snapshot, lookup: u16 -> Status, order: seq<string>)
    requires forall i :: 0 <= i < |order| ==> order[i] in s.headers
    ensures |s.body| <= |Wire(s, lookup, order)|
    ensures Wire(s, lookup, order)[|Wire(s, lookup, order)| - |s.body|..] == s.body
  {
  }

  /**
   * The field lines are exactly one line per recorded (name, value): nothing
   * is added (no Content-Length, no Transfer-Encoding, no Connection) and
   * nothing is lost, whatever order the names come in.
   */
  lemma FieldLinesExact(h: Headers, order: seq<string>, line: string)
    requires IsNameOrder(order, h)
    ensures line in FieldLines(h, order)
      <==> exists name, i :: name in h && 0 <= i < |h[name]| && line == FieldLine(name, h[name][i])
  {
    if line in FieldLines(h, order) {
      var name, i := FieldLinesMember(h, order, line);
    }
    if exists name, i :: name in h && 0 <= i < |h[name]| && line == FieldLine(name, h[name][i]) {
      var name, i :| name in h && 0 <= i < |h[name]| && line == FieldLine(name, h[name][i]);
      var k :| 0 <= k < |order| && order[k] == name;
      FieldLinesHas(h, order, k, i);
    }
  }

  /** Every field line comes from a recorded value. */
  lemma {:induction false} FieldLinesMember(h: Headers, order: seq<string>, line: string) returns (name: string, i: nat)
    requires forall k :: 0 <= k < |order| ==> order[k] in h
    requires line in FieldLines(h, order)
    ensures name in h && i < |h[name]| && line == FieldLine(name, h[name][i])
  {
    var init, last := order[..|order| - 1], order[|order| - 1];
    if line in FieldLines(h, init) {
      name, i := FieldLinesMember(h, init, line);
    } else {
      var lines := KeyLines(last, h[last]);
      assert line in lines;
      var j :| 0 <= j < |lines| && lines[j] == line;
      name, i := last, j;
    }
  }

  /** Every recorded value of a listed name has its field line. */
  lemma {:induction false} FieldLinesHas(h: Headers, order: seq<string>, k: nat, i: nat)
    requires forall j :: 0 <= j < |order| ==> order[j] in h
    requires k < |order| && i < |h[order[k]]|
    ensures FieldLine(order[k], h[order[k]][i]) in FieldLines(h, order)
  {
    var init, last := order[..|order| - 1], order[|order| - 1];
    if k < |order| - 1 {
      assert init[k] == order[k];
      FieldLinesHas(h, init, k, i);
    } else {
      assert KeyLines(last, h[last])[i] == FieldLine(order[k], h[order[k]][i]);
    }
  }

  /**
   * A header's values come out as one contiguous run of field lines, in the
   * order they were added.
   */
  lemma {:induction false} FieldLinesBlock(h: Headers, order: seq<string>, k: nat) returns (at: nat)
    requires forall j :: 0 <= j < |order| ==> order[j] in h
    requires k < |order|
    ensures at + |h[order[k]]| <= |FieldLines(h, order)|
    ensures FieldLines(h, order)[at..at + |h[order[k]]|] == KeyLines(order[k], h[order[k]])
  {
    var init, last := order[..|order| - 1], order[|order| - 1];
    var lines := KeyLines(last, h[last]);
    if k < |order| - 1 {
      assert init[k] == order[k];
      at := FieldLinesBlock(h, init, k);
      assert FieldLines(h, order)[..|FieldLines(h, init)|] == FieldLines(h, init);
    } else {
      at := |FieldLines(h, init)|;
      assert FieldLines(h, order) == FieldLines(h, init) + lines;
      assert FieldLines(h, order)[at..at + |lines|] == lines;
    }
  }

  /** With no headers set the response is the status line, an empty line and the body. */
  lemma NoHeadersWire(s: Snapshot, lookup: u16 -> Status)
    requires s.headers == map[]
    ensures IsNameOrder([], s.headers)
    ensures Wire(s, lookup, []) == Encode(StatusLine(lookup(CodeOf(s))) + "\r\n") + s.body
  {
    assert StatusLine(lookup(CodeOf(s))) + Concat(FieldLines(s.headers, [])) + "\r\n"
      == StatusLine(lookup(CodeOf(s))) + "\r\n";
  }

  // ---------------------------------------------------------------------------
  // The writer

  /** `WRITE_CTX`: finalised responses awaiting a writable socket, by event id. */
  class WriteTable {
    var pending: map<nat, Snapshot>

    constructor ()
      ensures pending == map[]
    {
      pending := map[];
    }
  }

  /** `set_headers`: each given name now holds the one value given, later entries winning. */
  function ReplaceAll(h: Headers, entries: seq<(string, string)>): Headers {
    if entries == [] then h
    else
      var e := entries[|entries| - 1];
      ReplaceAll(h, entries[..|entries| - 1])[e.0 := [e.1]]
  }

  /** Whether some entry names `k`. */
  predicate Names(entries: seq<(string, string)>, k: string) {
    exists j :: 0 <= j < |entries| && entries[j].0 == k
  }

  /** The last entry for a name decides it: the name holds that value alone. */
  lemma {:induction false} ReplaceAllLastWins(h: Headers, entries: seq<(string, string)>, i: nat)
    requires i < |entries|
    requires forall j :: i < j < |entries| ==> entries[j].0 != entries[i].0
    ensures entries[i].0 in ReplaceAll(h, entries) && ReplaceAll(h, entries)[entries[i].0] == [entries[i].1]
  {
    var init := entries[..|entries| - 1];
    if i < |entries| - 1 {
      assert forall j :: i < j < |init| ==> init[j] == entries[j];
      ReplaceAllLastWins(h, init, i);
    }
  }

  /** A name no entry gives keeps whatever the headers had for it, present or absent. */
  lemma {:induction false} ReplaceAllUntouched(h: Headers, entries: seq<(string, string)>, k: string)
    requires !Names(entries, k)
    ensures (k in ReplaceAll(h, entries)) == (k in h)
    ensures k in h ==> ReplaceAll(h, entries)[k] == h[k]
  {
    if entries != [] {
      var init := entries[..|entries| - 1];
      assert entries[|entries| - 1].0 != k;
      assert forall j :: 0 <= j < |init| ==> init[j] == entries[j];
      ReplaceAllUntouched(h, init, k);
    }
  }

  /** One call a handler makes on its writer. */
  datatype WriterOp =
    | WriteString(text: string)
    | SetHeaders(entries: seq<(string, string)>)
    | SetCookie(name: string, value: string)
    | SetCookieWithAttributes(name: string, value: string, attrs: seq<Attribute>)
    | WriteJson(dumped: string)
    | SetStatus(code: u16)
    | WriteStatus(status: Status)
    | ExecuteHtmlFile(file: FileOutcome)

  /** The state after one call. */
  function Apply(s: Snapshot, op: WriterOp): Snapshot {
    match op
    case WriteString(text) => s.(body := s.body + Encode(text))
    case SetHeaders(entries) => s.(headers := ReplaceAll(s.headers, entries))
    case SetCookie(name, value) => s.(headers := AppendValue(s.headers, SetCookieName, CookieText(name, value, [])))
    case SetCookieWithAttributes(name, value, attrs) =>
      s.(headers := AppendValue(s.headers, SetCookieName, CookieText(name, value, attrs)))
    case WriteJson(dumped) =>
      s.(headers := s.headers[ContentTypeName := ["application/json"]], body := Encode(dumped))
    case SetStatus(code) => s.(status := Some(code))
    case WriteStatus(status) => s.(body := Encode(status.reason), status := Some(status.code))
    case ExecuteHtmlFile(file) =>
      match file
      case Missing => s.(status := Some(404), body := s.body + Encode(FileNotFound))
      case Unreadable(_) => s
      case Contents(text) => s.(headers := s.headers[ContentTypeName := ["text/html"]], body := Encode(text))
  }

  /** Whether the call ends by copying the state into the write-back table. */
  predicate Finalizes(op: WriterOp) {
    match op
    case WriteString(_) => true
    case WriteJson(_) => true
    case WriteStatus(_) => true
    case ExecuteHtmlFile(file) => !file.Unreadable?
    case _ => false
  }

  /**
   * Running a handler's calls from state `s`: the final state, and the copy the
   * last terminal call stored (None when no call was terminal).
   */
  function Run(s: Snapshot, ops: seq<WriterOp>): (Snapshot, Option<Snapshot>) {
    if ops == [] then (s, None)
    else
      var (before, stored) := Run(s, ops[..|ops| - 1]);
      var after := Apply(before, ops[|ops| - 1]);
      (after, if Finalizes(ops[|ops| - 1]) then Some(after) else stored)
  }

  /**
   * What is stored is the state as of the last terminal call: calls after it
   * change the writer but not the stored copy.
   */
  lemma {:induction false} RunStoresLastTerminal(s: Snapshot, ops: seq<WriterOp>, k: nat)
    requires k < |ops| && Finalizes(ops[k])
    requires forall j :: k < j < |ops| ==> !Finalizes(ops[j])
    ensures Run(s, ops).1 == Some(Run(s, ops[..k + 1]).0)
  {
    if k < |ops| - 1 {
      assert ops[..|ops| - 1][..k + 1] == ops[..k + 1];
      RunStoresLastTerminal(s, ops[..|ops| - 1], k);
    } else {
      assert ops[..k + 1] == ops;
    }
  }

  /** Without a terminal call nothing is stored. */
  lemma {:induction false} RunStoresNothing(s: Snapshot, ops: seq<WriterOp>)
    requires forall j :: 0 <= j < |ops| ==> !Finalizes(ops[j])
    ensures Run(s, ops).1 == None
  {
    if ops != [] {
      RunStoresNothing(s, ops[..|ops| - 1]);
    }
  }

  /** `set_cookie` twice keeps both values as separate Set-Cookie lines, in call order. */
  lemma TwoCookies(s: Snapshot, n1: string, v1: string, n2: string, v2: string)
    ensures var r := Run(s, [SetCookie(n1, v1), SetCookie(n2, v2)]).0;
      ValuesOf(r.headers, SetCookieName) == ValuesOf(s.headers, SetCookieName) + [n1 + "=" + v1, n2 + "=" + v2]
  {
    var ops := [SetCookie(n1, v1), SetCookie(n2, v2)];
    assert ops[..1] == [SetCookie(n1, v1)];
    assert ops[..1][..0] == [];
    assert CookieText(n1, v1, []) == n1 + "=" + v1;
    assert CookieText(n2, v2, []) == n2 + "=" + v2;
    var s1 := Apply(s, ops[0]);
    assert Run(s, ops[..1]).0 == s1;
    var s2 := Apply(s1, ops[1]);
    assert Run(s, ops).0 == s2;
    assert ValuesOf(s1.headers, SetCookieName) == ValuesOf(s.headers, SetCookieName) + [n1 + "=" + v1];
    assert ValuesOf(s2.headers, SetCookieName) == ValuesOf(s1.headers, SetCookieName) + [n2 + "=" + v2];
  }

  class ResponseWriter {
    const eventId: nat
    const table: WriteTable
    var body: seq<byte>
    var headers: Headers
    var statusCode: Option<u16>

    /** The state a terminal call stores. */
    function State(): Snapshot
      reads this
    {
      Snapshot(body, headers, statusCode)
    }

    /** `ResponseWriter::new`: empty body, no headers, no status. */
    constructor (table: WriteTable, eventId: nat)
      ensures this.table == table && this.eventId == eventId
      ensures body == [] && headers == map[] && statusCode == None
    {
      this.eventId := eventId;
      this.table := table;
      body := [];
      headers := map[];
      statusCode := None;
    }

    /** `write`: store a copy of the current state under this writer's event id. */
    method Write()
      modifies table
      ensures table.pending == old(table.pending)[eventId := State()]
    {
      table.pending := table.pending[eventId := State()];
    }

    /** `write_string`: append to the body, never replacing it, then store. */
    method WriteString(text: string)
      modifies this, table
      ensures body == old(body) + Encode(text)
      ensures headers == old(headers) && statusCode == old(statusCode)
      ensures table.pending == old(table.pending)[eventId := State()]
    {
      body := body + Encode(text);
      Write();
    }

    /**
     * `set_headers`: each given name now holds only the value of its last
     * entry (earlier values, Set-Cookie ones included, are dropped, not
     * appended to); every other name is untouched.
     */
    method SetHeaders(entries: seq<(string, string)>)
      modifies this
      ensures headers == ReplaceAll(old(headers), entries)
      ensures forall i :: 0 <= i < |entries| && (forall j :: i < j < |entries| ==> entries[j].0 != entries[i].0) ==>
        entries[i].0 in headers && headers[entries[i].0] == [entries[i].1]
      ensures forall k :: !Names(entries, k) ==>
        (k in headers <==> k in old(headers)) && (k in old(headers) ==> headers[k] == old(headers)[k])
      ensures body == old(body) && statusCode == old(statusCode)
    {
      var i := 0;
      while i < |entries|
        invariant i <= |entries|
        invariant headers == ReplaceAll(old(headers), entries[..i])
        invariant body == old(body) && statusCode == old(statusCode)
      {
        assert entries[..i + 1][..i] == entries[..i];
        headers := headers[entries[i].0 := [entries[i].1]];
        i := i + 1;
      }
      assert entries[..i] == entries;
      forall i | 0 <= i < |entries| && (forall j :: i < j < |entries| ==> entries[j].0 != entries[i].0)
        ensures entries[i].0 in headers && headers[entries[i].0] == [entries[i].1]
      {
        ReplaceAllLastWins(old(headers), entries, i);
      }
      forall k | !Names(entries, k)
        ensures (k in headers <==> k in old(headers)) && (k in old(headers) ==> headers[k] == old(headers)[k])
      {
        ReplaceAllUntouched(old(headers), entries, k);
      }
    }

    /** `set_cookie`: one more Set-Cookie value, exactly `name=value`. */
    method SetCookie(name: string, value: string)
      modifies this
      ensures headers == old(headers)[SetCookieName := ValuesOf(old(headers), SetCookieName) + [name + "=" + value]]
      ensures body == old(body) && statusCode == old(statusCode)
    {
      headers := AppendValue(headers, SetCookieName, name + "=" + value);
    }

    /** `set_cookie_with_attributes`: one more Set-Cookie value, `name=value` and the attributes in order. */
    method SetCookieWithAttributes(name: string, value: string, attrs: seq<Attribute>)
      modifies this
      ensures headers == old(headers)[SetCookieName := ValuesOf(old(headers), SetCookieName) + [CookieText(name, value, attrs)]]
      ensures body == old(body) && statusCode == old(statusCode)
    {
      var cookie := name + "=" + value;
      var i := 0;
      assert attrs[..0] == [] && cookie == CookieText(name, value, []);
      while i < |attrs|
        invariant i <= |attrs|
        invariant cookie == CookieText(name, value, attrs[..i])
        invariant unchanged(this)
      {
        CookieTextSnoc(name, value, attrs, i);
        match attrs[i].1 {
          case Some(v) => cookie := cookie + ("; " + attrs[i].0 + "=" + v);
          case None => cookie := cookie + ("; " + attrs[i].0);
        }
        i := i + 1;
      }
      assert attrs[..i] == attrs;
      headers := AppendValue(headers, SetCookieName, cookie);
    }

    /** `write_json`: Content-Type becomes `application/json`, the body is replaced by the dump, then store. */
    method WriteJson(dumped: string)
      modifies this, table
      ensures headers == old(headers)[ContentTypeName := ["application/json"]]
      ensures body == Encode(dumped) && statusCode == old(statusCode)
      ensures table.pending == old(table.pending)[eventId := State()]
    {
      headers := headers[ContentTypeName := ["application/json"]];
      body := Encode(dumped);
      Write();
    }

    /** `set_status`: only the status changes, and nothing is stored. */
    method SetStatus(code: u16)
      modifies this
      ensures statusCode == Some(code)
      ensures body == old(body) && headers == old(headers)
    {
      statusCode := Some(code);
    }

    /** `write_status`: the body becomes the reason phrase, the status its code, then store. */
    method WriteStatus(status: Status)
      modifies this, table
      ensures body == Encode(status.reason) && statusCode == Some(status.code)
      ensures headers == old(headers)
      ensures table.pending == old(table.pending)[eventId := State()]
    {
      body := Encode(status.reason);
      SetStatus(status.code);
      Write();
    }

    /**
     * `execute_html_file` on a file the filesystem describes as `file`: a
     * missing file gives status 404 and `File not found` appended to the body
     * (stored, and reported as an error); an unreadable one changes nothing
     * and reports the read error; otherwise Content-Type becomes `text/html`,
     * the body becomes the file's text, and the state is stored.
     */
    method ExecuteHtmlFile(file: FileOutcome) returns (r: Result<(), IoError>)
      modifies this, table
      ensures file.Missing? ==>
        && r == Err(IoError(NotFoundKind, FileNotFound))
        && statusCode == Some(404) && body == old(body) + Encode(FileNotFound) && headers == old(headers)
        && table.pending == old(table.pending)[eventId := State()]
      ensures file.Unreadable? ==>
        && r == Err(file.error)
        && body == old(body) && headers == old(headers) && statusCode == old(statusCode)
        && table.pending == old(table.pending)
      ensures file.Contents? ==>
        && r == Ok(())
        && headers == old(headers)[ContentTypeName := ["text/html"]]
        && body == Encode(file.text) && statusCode == old(statusCode)
        && table.pending == old(table.pending)[eventId := State()]
    {
      match file {
        case Missing =>
          SetStatus(404);
          WriteString(FileNotFound);
          r := Err(IoError(NotFoundKind, FileNotFound));
        case Unreadable(e) =>
          r := Err(e);
        case Contents(text) =>
          headers := headers[ContentTypeName := ["text/html"]];
          body := Encode(text);
          Write();
          r := Ok(());
      }
    }

    /** One handler call. */
    method Perform(op: WriterOp)
      modifies this, table
      ensures State() == Apply(old(State()), op)
      ensures table.pending == if Finalizes(op) then old(table.pending)[eventId := State()] else old(table.pending)
    {
      match op {
        case WriteString(text) => WriteString(text);
        case SetHeaders(entries) => SetHeaders(entries);
        case SetCookie(name, value) =>
          assert CookieText(name, value, []) == name + "=" + value;
          SetCookie(name, value);
        case SetCookieWithAttributes(name, value, attrs) => SetCookieWithAttributes(name, value, attrs);
        case WriteJson(dumped) => WriteJson(dumped);
        case SetStatus(code) => SetStatus(code);
        case WriteStatus(status) => WriteStatus(status);
        case ExecuteHtmlFile(file) => var _ := ExecuteHtmlFile(file);
      }
    }

    /**
     * A handler, as the sequence of calls it makes on the writer: the writer
     * ends in the state `Run` computes, and the table holds the copy of the
     * last terminal call (or is untouched if none was terminal).
     */
    method Handle(ops: seq<WriterOp>)
      modifies this, table
      ensures State() == Run(old(State()), ops).0
      ensures table.pending == match Run(old(State()), ops).1
        case Some(stored) => old(table.pending)[eventId := stored]
        case None => old(table.pending)
    {
      var i := 0;
      while i < |ops|
        invariant i <= |ops|
        invariant State() == Run(old(State()), ops[..i]).0
        invariant table.pending == match Run(old(State()), ops[..i]).1
          case Some(stored) => old(table.pending)[eventId := stored]
          case None => old(table.pending)
      {
        assert ops[..i + 1][..i] == ops[..i];
        Perform(ops[i]);
        i := i + 1;
      }
      assert ops[..i] == ops;
    }
  }
}
