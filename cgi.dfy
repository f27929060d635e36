/**
 * The CGI bridge of `src/cgi_handlers.rs` (section 4.1 and section 6 of
 * RFC 3875, simplified). The script runs with the request method, path and
 * query as meta-variables and each request header as an `HTTP_` variable; its
 * output is read line by line: field lines up to the first empty line become
 * response headers, later non-empty lines the body. A failed script turns the
 * response into a 404. It is modelled as written, although the file is not
 * compiled into the crate.
 */
module Cgi {
  import opened Wrappers
  import opened Utf8
  import opened Text
  import opened Responses
  import opened Requests

  // ---------------------------------------------------------------------------
  // Meta-variables

  /** `path.split('?').nth(1).unwrap_or("")`: the text between the first and the second `?`. */
  function QueryString(path: string): string {
    var parts := Split(path, '?');
    if |parts| > 1 then parts[1] else ""
  }

  /** The query is what follows the first `?`, up to any further `?`; no `?`, no query. */
  lemma QueryStringOf(before: string, query: string, rest: string)
    requires '?' !in before && '?' !in query
    ensures QueryString(before) == ""
    ensures QueryString(before + "?" + query) == query
    ensures QueryString(before + "?" + query + "?" + rest) == query
  {
    SplitWithout(before, '?');
    SplitCons(before, '?', query);
    SplitWithout(query, '?');
    assert before + "?" + query + "?" + rest == before + ['?'] + (query + ['?'] + rest);
    SplitCons(before, '?', query + ['?'] + rest);
    SplitCons(query, '?', rest);
  }

  /** ASCII upper case; header names are ASCII tokens. */
  function Upper(c: char): char {
    if 'a' <= c <= 'z' then (c as int - 32) as char else c
  }

  /** One character of an `HTTP_` name: upper case, `-` turned into `_`. */
  function EnvChar(c: char): char {
    if c == '-' then '_' else Upper(c)
  }

  /** `format!("HTTP_{}", key.to_uppercase().replace("-", "_"))`, character by character. */
  function EnvName(key: string): (name: string)
    ensures |name| == |key| + 5 && name[..5] == "HTTP_"
    ensures forall i :: 0 <= i < |key| ==> name[i + 5] == EnvChar(key[i])
  {
    if key == [] then "HTTP_"
    else
      var name := EnvName(key[..|key| - 1]) + [EnvChar(key[|key| - 1])];
      assert name[..5] == EnvName(key[..|key| - 1])[..5];
      name
  }

  /** An `HTTP_` name holds no `-` and no lower-case ASCII letter. */
  lemma EnvNameShape(key: string)
    ensures forall i :: 5 <= i < |EnvName(key)| ==> EnvName(key)[i] != '-' && !('a' <= EnvName(key)[i] <= 'z')
  {
    var name := EnvName(key);
    forall i | 5 <= i < |name|
      ensures name[i] != '-' && !('a' <= name[i] <= 'z')
    {
      assert name[i] == EnvChar(key[i - 5]);
    }
  }

  /** `order` lists every key of `m` exactly once (the map's iteration order). */
  predicate IsKeyOrder(order: seq<string>, m: map<string, string>) {
    (forall i, j :: 0 <= i < j < |order| ==> order[i] != order[j])
    && (forall i :: 0 <= i < |order| ==> order[i] in m)
    && (forall k :: k in m ==> k in order)
  }

  /** The three meta-variables set before the headers. */
  function MetaVars(httpMethod: string, path: string): map<string, string> {
    map["REQUEST_METHOD" := httpMethod, "PATH_INFO" := path, "QUERY_STRING" := QueryString(path)]
  }

  /** A request header as an environment entry. */
  function HeaderVar(headers: map<string, string>): string -> Option<(string, string)> {
    key => if key in headers then Some((EnvName(key), headers[key])) else None
  }

  /** The variables `handle_cgi` sets, the headers taken in `order`. */
  function Environment(httpMethod: string, path: string, headers: map<string, string>, order: seq<string>): map<string, string> {
    Insert(MetaVars(httpMethod, path), order, HeaderVar(headers))
  }

  /** No `HTTP_` name clashes with a meta-variable: those keep their values. */
  lemma MetaVarsKept(httpMethod: string, path: string, headers: map<string, string>, order: seq<string>)
    ensures var env := Environment(httpMethod, path, headers, order);
      && "REQUEST_METHOD" in env && env["REQUEST_METHOD"] == httpMethod
      && "PATH_INFO" in env && env["PATH_INFO"] == path
      && "QUERY_STRING" in env && env["QUERY_STRING"] == QueryString(path)
  {
    var entry := HeaderVar(headers);
    forall j | 0 <= j < |order|
      ensures !Sets(entry(order[j]), "REQUEST_METHOD") && !Sets(entry(order[j]), "PATH_INFO")
      ensures !Sets(entry(order[j]), "QUERY_STRING")
    {
      var name := EnvName(order[j]);
      assert name[0] == 'H';
    }
    InsertUntouched(MetaVars(httpMethod, path), order, entry, "REQUEST_METHOD");
    InsertUntouched(MetaVars(httpMethod, path), order, entry, "PATH_INFO");
    InsertUntouched(MetaVars(httpMethod, path), order, entry, "QUERY_STRING");
  }

  /** A header whose `HTTP_` name no other header shares is passed with its value. */
  lemma HeaderVarSet(httpMethod: string, path: string, headers: map<string, string>, order: seq<string>, key: string)
    requires IsKeyOrder(order, headers) && key in headers
    requires forall k :: k in headers && k != key ==> EnvName(k) != EnvName(key)
    ensures var env := Environment(httpMethod, path, headers, order);
      EnvName(key) in env && env[EnvName(key)] == headers[key]
  {
    var i :| 0 <= i < |order| && order[i] == key;
    var entry := HeaderVar(headers);
    forall j | i < j < |order|
      ensures !Sets(entry(order[j]), EnvName(key))
    {
      assert order[j] != key;
    }
    InsertLastWins(MetaVars(httpMethod, path), order, entry, i, EnvName(key), headers[key]);
  }

  // ---------------------------------------------------------------------------
  // The output parser

  /** The parser's state: the writer's headers and body, and whether the empty line was seen. */
  datatype CgiState = CgiState(headers: Headers, body: seq<byte>, headersEnd: bool)

  /**
   * One output line: an empty line ends the header section (and is dropped);
   * before it, a line with a `:` adds the trimmed value under the trimmed name
   * and a line without one is dropped; after it, the line and a line feed are
   * appended to the body.
   */
  function ParseLine(st: CgiState, line: string): CgiState {
    if line == [] then st.(headersEnd := true)
    else if !st.headersEnd then
      match SplitOnce(line, ':')
      case Some((name, value)) => st.(headers := AppendValue(st.headers, Trim(name), Trim(value)))
      case None => st
    else st.(body := st.body + Encode(line) + [0x0A])
  }

  function ParseLines(st: CgiState, lines: seq<string>): CgiState {
    if lines == [] then st else ParseLine(ParseLines(st, lines[..|lines| - 1]), lines[|lines| - 1])
  }

  /** Every line feed in `b` follows a byte that is not a line feed: `b` holds no empty line. */
  predicate NoEmptyLine(b: seq<byte>) {
    forall i :: 0 <= i < |b| && b[i] == 0x0A ==> i > 0 && b[i - 1] != 0x0A
  }

  /** The body never gains an empty line: empty output lines are dropped, not copied. */
  lemma {:induction false} BodyHasNoEmptyLine(st: CgiState, lines: seq<string>)
    requires NoEmptyLine(st.body)
    requires forall i :: 0 <= i < |lines| ==> '\n' !in lines[i]
    ensures NoEmptyLine(ParseLines(st, lines).body)
  {
    if lines != [] {
      var init, line := lines[..|lines| - 1], lines[|lines| - 1];
      BodyHasNoEmptyLine(st, init);
      var before := ParseLines(st, init);
      if line != [] && before.headersEnd {
        var e := Encode(line);
        EncodeNoNewline(line);
        var b := before.body + e + [0x0A];
        assert |e| >= 1;
        forall i | 0 <= i < |b| && b[i] == 0x0A
          ensures i > 0 && b[i - 1] != 0x0A
        {
          if i < |before.body| {
            assert b[i] == before.body[i] && b[i - 1] == before.body[i - 1];
          } else {
            assert forall j :: |before.body| <= j < |before.body| + |e| ==> b[j] == e[j - |before.body|];
            assert i == |b| - 1;
            assert b[i - 1] == e[|e| - 1];
          }
        }
      }
    }
  }

  /** Without an empty line in the output, nothing reaches the body. */
  lemma {:induction false} NoBlankLineNoBody(st: CgiState, lines: seq<string>)
    requires !st.headersEnd
    requires forall i :: 0 <= i < |lines| ==> lines[i] != []
    ensures ParseLines(st, lines).body == st.body && !ParseLines(st, lines).headersEnd
  {
    if lines != [] {
      NoBlankLineNoBody(st, lines[..|lines| - 1]);
    }
  }

  /** After the empty line no header changes, whatever the lines hold. */
  lemma {:induction false} HeadersFrozenAfterBlank(st: CgiState, lines: seq<string>)
    requires st.headersEnd
    ensures ParseLines(st, lines).headers == st.headers && ParseLines(st, lines).headersEnd
  {
    if lines != [] {
      HeadersFrozenAfterBlank(st, lines[..|lines| - 1]);
    }
  }

  /** A field line, a CRLF empty line and one body line are three lines. */
  lemma ThreeLines(field: string, text: string)
    requires '\n' !in field && '\r' !in field && '\n' !in text && '\r' !in text
    ensures Lines(field + "\r\n\r\n" + text + "\n") == [field, "", text]
  {
    var tail := text + "\n" + "";
    var second := "" + "\r\n" + tail;
    assert StripCr(text) == text by {
      if text != [] {
        assert text[|text| - 1] in text;
      }
    }
    calc {
      Lines(field + "\r\n\r\n" + text + "\n");
      { assert field + "\r\n\r\n" + text + "\n" == field + "\r\n" + second; }
      Lines(field + "\r\n" + second);
      { LinesCrLf(field, second); }
      [field] + Lines(second);
      { LinesCrLf("", tail); }
      [field] + ([""] + Lines(tail));
      { LinesCons(text, ""); }
      [field] + ([""] + ([text] + Lines("")));
      [field, "", text];
    }
  }

  /** `name: value` splits at its colon into the trimmed name and value. */
  lemma FieldLineSplit(name: string, value: string)
    requires ':' !in name && name != [] && value != []
    requires !IsWhitespace(name[0]) && !IsWhitespace(name[|name| - 1])
    requires !IsWhitespace(value[0]) && !IsWhitespace(value[|value| - 1])
    ensures SplitOnce(name + ": " + value, ':') == Some((name, " " + value))
    ensures Trim(name) == name && Trim(" " + value) == value
  {
    assert name + ": " + value == name + [':'] + (" " + value);
    SplitOnceOf(name, ':', " " + value);
    TrimOf([], name, []);
    assert [] + name + [] == name;
    TrimOf([' '], value, []);
    assert [' '] + value + [] == " " + value;
  }

  /**
   * Reading the output in two parts and reading it at once end the same: all
   * the loop carries from one line to the next is in the state.
   */
  lemma {:induction false} ParseLinesAppend(st: CgiState, a: seq<string>, b: seq<string>)
    ensures ParseLines(st, a + b) == ParseLines(ParseLines(st, a), b)
    decreases |b|
  {
    if b == [] {
      assert a + b == a;
    } else {
      var init := b[..|b| - 1];
      assert (a + b)[..|a + b| - 1] == a + init;
      ParseLinesAppend(st, a, init);
    }
  }

  /** The loop read from the front: the first line's state is where the rest starts. */
  lemma ParseLinesCons(st: CgiState, first: string, rest: seq<string>)
    ensures ParseLines(st, [first] + rest) == ParseLines(ParseLine(st, first), rest)
  {
    ParseLinesAppend(st, [first], rest);
    assert [first][..0] == [];
  }

  /** Three lines, one after another. */
  lemma ParseThree(st: CgiState, a: string, b: string, c: string)
    ensures ParseLines(st, [a, b, c]) == ParseLine(ParseLine(ParseLine(st, a), b), c)
  {
    assert [a][..0] == [];
    assert ParseLines(st, [a]) == ParseLine(st, a);
    assert [a, b][..1] == [a];
    assert ParseLines(st, [a, b]) == ParseLine(ParseLines(st, [a]), b);
    assert [a, b, c][..2] == [a, b];
  }

  /** A field line into an empty header map leaves exactly that field. */
  lemma FieldIntoEmpty(field: string, name: string, value: string)
    requires field != []
    requires SplitOnce(field, ':') == Some((name, " " + value)) && Trim(name) == name && Trim(" " + value) == value
    ensures ParseLine(CgiState(map[], [], false), field) == CgiState(map[name := [value]], [], false)
  {
    var empty: Headers := map[];
    var st := CgiState(empty, [], false);
    assert ParseLine(st, field) == st.(headers := AppendValue(empty, Trim(name), Trim(" " + value)));
    assert ValuesOf(empty, name) + [value] == [value];
    assert AppendValue(empty, name, value) == empty[name := [value]];
    assert empty[name := [value]] == map[name := [value]];
  }

  /** An empty line ends the header section; the next line goes to the body. */
  lemma BlankThenText(h: Headers, text: string)
    requires text != []
    ensures ParseLine(ParseLine(CgiState(h, [], false), ""), text) == CgiState(h, Encode(text) + [0x0A], true)
  {
    assert [] + Encode(text) + [0x0A] == Encode(text) + [0x0A];
  }

  /** The three lines of `OneFieldOneLine`, parsed. */
  lemma ParseFieldBlankText(field: string, name: string, value: string, text: string)
    requires field != [] && text != []
    requires SplitOnce(field, ':') == Some((name, " " + value)) && Trim(name) == name && Trim(" " + value) == value
    ensures ParseLines(CgiState(map[], [], false), [field, "", text])
         == CgiState(map[name := [value]], Encode(text) + [0x0A], true)
  {
    ParseThree(CgiState(map[], [], false), field, "", text);
    FieldIntoEmpty(field, name, value);
    BlankThenText(map[name := [value]], text);
  }

  /** Script output in the usual shape: one field line, a CRLF empty line, one body line. */
  lemma OneFieldOneLine(name: string, value: string, text: string)
    requires name != [] && value != [] && text != []
    requires ':' !in name && '\n' !in name + value + text && '\r' !in name + value + text
    requires !IsWhitespace(name[0]) && !IsWhitespace(name[|name| - 1])
    requires !IsWhitespace(value[0]) && !IsWhitespace(value[|value| - 1])
    ensures ParseLines(CgiState(map[], [], false), Lines(name + ": " + value + "\r\n\r\n" + text + "\n"))
         == CgiState(map[name := [value]], Encode(text) + [0x0A], true)
  {
    var field := name + ": " + value;
    assert '\n' !in field && '\r' !in field && '\n' !in text && '\r' !in text by {
      assert field == name + [':', ' '] + value;
      assert forall c :: c in field ==> c in name || c == ':' || c == ' ' || c in value;
      assert forall c :: c in name || c in value || c in text ==> c in name + value + text;
    }
    ThreeLines(field, text);
    FieldLineSplit(name, value);
    ParseFieldBlankText(field, name, value, text);
  }

  // ---------------------------------------------------------------------------
  // The handler

  /**
   * What is started: the interpreter as the program, the script's path as its
   * one argument, the variables set, and its standard input.
   */
  datatype Invocation = Invocation(interpreter: string, script: string, env: map<string, string>, stdin: seq<byte>)

  /** `cwd.join(script_path.strip_prefix("/").unwrap_or(script_path))`. */
  function ScriptPath(cwd: string, scriptPath: string): string {
    cwd + "/" + TrimStartBy(scriptPath, c => c == '/')
  }

  /** A leading `/` makes no difference: the script is always looked up under `cwd`. */
  lemma ScriptPathRelative(cwd: string, rel: string)
    requires rel == [] || rel[0] != '/'
    ensures ScriptPath(cwd, "/" + rel) == ScriptPath(cwd, rel) == cwd + "/" + rel
  {
    TrimStartOf("/", rel, c => c == '/');
    TrimStartOf([], rel, c => c == '/');
    assert [] + rel == rel;
  }

  /** The variables `handle_cgi` sets, one `command.env` call after another. */
  method SetEnvironment(req: Request, order: seq<string>) returns (env: map<string, string>)
    requires IsKeyOrder(order, req.headers)
    ensures env == Environment(req.httpMethod, req.path, req.headers, order)
  {
    env := map["REQUEST_METHOD" := req.httpMethod];
    env := env["PATH_INFO" := req.path];
    env := env["QUERY_STRING" := QueryString(req.path)];
    var i := 0;
    while i < |order|
      invariant i <= |order|
      invariant env == Insert(MetaVars(req.httpMethod, req.path), order[..i], HeaderVar(req.headers))
    {
      InsertSnoc(MetaVars(req.httpMethod, req.path), order, HeaderVar(req.headers), i);
      var key := order[i];
      env := env[EnvName(key) := req.headers[key]];
      i := i + 1;
    }
    assert order[..i] == order;
  }

  /** The output loop: one line after another, the `headers_end` flag carried along. */
  method ReadOutput(resp: ResponseWriter, lines: seq<string>)
    modifies resp
    ensures var parsed := ParseLines(CgiState(old(resp.headers), old(resp.body), false), lines);
      resp.headers == parsed.headers && resp.body == parsed.body
    ensures resp.statusCode == old(resp.statusCode)
  {
    var headersEnd := false;
    var i := 0;
    while i < |lines|
      invariant i <= |lines|
      invariant CgiState(resp.headers, resp.body, headersEnd)
             == ParseLines(CgiState(old(resp.headers), old(resp.body), false), lines[..i])
      invariant resp.statusCode == old(resp.statusCode)
    {
      assert lines[..i + 1][..i] == lines[..i];
      var line := lines[i];
      if line == [] {
        headersEnd := true;
      } else if !headersEnd {
        match SplitOnce(line, ':') {
          case Some((name, value)) => resp.headers := AppendValue(resp.headers, Trim(name), Trim(value));
          case None =>
        }
      } else {
        resp.body := resp.body + Encode(line);
        resp.body := resp.body + [0x0A];
      }
      i := i + 1;
    }
    assert lines[..i] == lines;
  }

  /**
   * `handle_cgi`: the script is run as `invocation` says; it printed `stdout`
   * (already decoded) and exited with `success`. Its field lines are added to
   * the writer's headers and its body lines to the body; on failure the
   * response becomes a 404 (keeping those headers), on success it is stored
   * as it stands. Either way the writer's state is stored.
   */
  method HandleCgi(req: Request, resp: ResponseWriter, cwd: string, interpreter: string, scriptPath: string, order: seq<string>,
                   stdout: string, success: bool) returns (invocation: Invocation)
    requires IsKeyOrder(order, req.headers)
    modifies resp, resp.table
    ensures invocation == Invocation(interpreter, ScriptPath(cwd, scriptPath),
                                     Environment(req.httpMethod, req.path, req.headers, order), req.body)
    ensures var parsed := ParseLines(CgiState(old(resp.headers), old(resp.body), false), Lines(stdout));
      && resp.headers == parsed.headers
      && (success ==> resp.body == parsed.body && resp.statusCode == old(resp.statusCode))
      && (!success ==> resp.body == Encode(NotFound.reason) && resp.statusCode == Some(NotFound.code))
    ensures resp.table.pending == old(resp.table.pending)[resp.eventId := resp.State()]
  {
    var env := SetEnvironment(req, order);
    invocation := Invocation(interpreter, ScriptPath(cwd, scriptPath), env, req.body);
    ReadOutput(resp, Lines(stdout));
    if !success {
      resp.WriteStatus(NotFound);
      return;
    }
    resp.Write();
  }
}
