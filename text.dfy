/**
 * The pieces of Rust's `str` API that the server uses on header values, paths
 * and CGI output: `split`, `split_once`, `trim`, `trim_matches`,
 * `starts_with`, the decimal `Display` of an unsigned integer and
 * `usize::from_str`.
 */
module Text {
  import opened Wrappers

  /** `char::is_whitespace`: the characters with Unicode's White_Space property. */
  predicate IsWhitespace(c: char) {
    ('\t' <= c <= '\r') || c == ' ' || c == '\U{0085}' || c == '\U{00A0}' || c == '\U{1680}'
    || ('\U{2000}' <= c <= '\U{200A}') || c == '\U{2028}' || c == '\U{2029}' || c == '\U{202F}'
    || c == '\U{205F}' || c == '\U{3000}'
  }

  predicate IsDigit(c: char) {
    '0' <= c <= '9'
  }

  predicate AllDigits(s: string) {
    forall i :: 0 <= i < |s| ==> IsDigit(s[i])
  }

  predicate StartsWith(s: string, prefix: string) {
    |prefix| <= |s| && s[..|prefix|] == prefix
  }

  /** The position of the first `c` in `s`. */
  function IndexOf(s: string, c: char): (i: nat)
    requires c in s
    ensures i < |s| && s[i] == c && c !in s[..i]
  {
    if s[0] == c then 0 else 1 + IndexOf(s[1..], c)
  }

  // ---------------------------------------------------------------------------
  // split / join

  /** The pieces joined back with `sep` between them. */
  function Join(parts: seq<string>, sep: char): string
    requires |parts| >= 1
  {
    if |parts| == 1 then parts[0] else parts[0] + [sep] + Join(parts[1..], sep)
  }

  /**
   * `s.split(sep)` collected: always at least one piece, no piece holds `sep`,
   * and joining the pieces with `sep` gives `s` back.
   */
  function Split(s: string, sep: char): (parts: seq<string>)
    ensures |parts| >= 1
    ensures forall i :: 0 <= i < |parts| ==> sep !in parts[i]
    ensures Join(parts, sep) == s
  {
    if sep !in s then [s]
    else
      var i := IndexOf(s, sep);
      assert s == s[..i] + [sep] + s[i + 1..];
      [s[..i]] + Split(s[i + 1..], sep)
  }

  /** Splitting the join of separator-free pieces gives the pieces back. */
  lemma {:induction false} SplitJoin(parts: seq<string>, sep: char)
    requires |parts| >= 1
    requires forall i :: 0 <= i < |parts| ==> sep !in parts[i]
    ensures Split(Join(parts, sep), sep) == parts
  {
    if |parts| > 1 {
      var s := Join(parts, sep);
      var rest := Join(parts[1..], sep);
      assert s == parts[0] + [sep] + rest;
      assert s[|parts[0]|] == sep;
      assert s[..|parts[0]|] == parts[0];
      assert IndexOf(s, sep) == |parts[0]| by {
        IndexOfAt(s, sep, |parts[0]|);
      }
      assert s[|parts[0]| + 1..] == rest;
      SplitJoin(parts[1..], sep);
    }
  }

  /** A position holding `c` with no `c` before it is the first `c`. */
  lemma {:induction false} IndexOfAt(s: string, c: char, i: nat)
    requires i < |s| && s[i] == c && c !in s[..i]
    ensures IndexOf(s, c) == i
  {
    if i > 0 {
      assert s[0] in s[..i];
      assert s[1..][..i - 1] == s[1..i];
      assert forall x :: x in s[1..i] ==> x in s[..i];
      IndexOfAt(s[1..], c, i - 1);
    }
  }

  /**
   * `s.split_once(sep)`: the text before the first `sep` and the text after
   * it, or None when `s` has no `sep`.
   */
  function SplitOnce(s: string, sep: char): (r: Option<(string, string)>)
    ensures r.None? <==> sep !in s
    ensures r.Some? ==> sep !in r.value.0 && s == r.value.0 + [sep] + r.value.1
  {
    if sep !in s then None
    else
      var i := IndexOf(s, sep);
      assert s == s[..i] + [sep] + s[i + 1..];
      Some((s[..i], s[i + 1..]))
  }

  /** A separator-free head is the first piece. */
  lemma SplitCons(head: string, sep: char, tail: string)
    requires sep !in head
    ensures Split(head + [sep] + tail, sep) == [head] + Split(tail, sep)
  {
    var s := head + [sep] + tail;
    assert s[..|head|] == head;
    IndexOfAt(s, sep, |head|);
    assert s[|head| + 1..] == tail;
  }

  /** Text without the separator splits into itself alone. */
  lemma SplitWithout(s: string, sep: char)
    requires sep !in s
    ensures Split(s, sep) == [s]
  {
  }

  /** A separator-free head is exactly what `split_once` cuts off. */
  lemma SplitOnceOf(head: string, sep: char, tail: string)
    requires sep !in head
    ensures SplitOnce(head + [sep] + tail, sep) == Some((head, tail))
  {
    var s := head + [sep] + tail;
    assert s[..|head|] == head;
    IndexOfAt(s, sep, |head|);
    assert s[|head| + 1..] == tail;
  }

  /**
   * `s.rsplit_once(sep)`: the text before the last `sep` and the text after
   * it, or None when `s` has no `sep`.
   */
  function RSplitOnce(s: string, sep: char): (r: Option<(string, string)>)
    ensures r.None? <==> sep !in s
    ensures r.Some? ==> sep !in r.value.1 && s == r.value.0 + [sep] + r.value.1
  {
    if s == [] then None
    else if s[|s| - 1] == sep then Some((s[..|s| - 1], []))
    else match RSplitOnce(s[..|s| - 1], sep)
      case None =>
        assert forall x :: x in s ==> x in s[..|s| - 1] || x == s[|s| - 1] by {
          assert s == s[..|s| - 1] + [s[|s| - 1]];
        }
        None
      case Some((head, tail)) => Some((head, tail + [s[|s| - 1]]))
  }

  /** A separator-free tail is exactly what `rsplit_once` cuts off. */
  lemma {:induction false} RSplitOnceOf(head: string, sep: char, tail: string)
    requires sep !in tail
    ensures RSplitOnce(head + [sep] + tail, sep) == Some((head, tail))
  {
    var s := head + [sep] + tail;
    if tail != [] {
      var init := tail[..|tail| - 1];
      assert s[..|s| - 1] == head + [sep] + init;
      assert sep !in init by {
        assert forall x :: x in init ==> x in tail;
      }
      RSplitOnceOf(head, sep, init);
      assert init + [tail[|tail| - 1]] == tail;
    } else {
      assert s[..|s| - 1] == head;
    }
  }

  // ---------------------------------------------------------------------------
  // lines

  /** A line with one trailing carriage return removed, if it has one. */
  function StripCr(line: string): string {
    if line != [] && line[|line| - 1] == '\r' then line[..|line| - 1] else line
  }

  /**
   * `str::lines`: the text cut at each line feed, a carriage return just
   * before a line feed dropped, and no empty line after a final line feed. A
   * carriage return at the very end, with no line feed after it, is kept.
   */
  function Lines(s: string): (lines: seq<string>)
    ensures forall i :: 0 <= i < |lines| ==> '\n' !in lines[i]
    decreases |s|
  {
    if s == [] then []
    else if '\n' !in s then [s]
    else
      var i := IndexOf(s, '\n');
      assert forall c :: c in s[..i] ==> c in s[..i];
      var line := StripCr(s[..i]);
      assert forall c :: c in line ==> c in s[..i];
      [line] + Lines(s[i + 1..])
  }

  /** Lines written out, each followed by a line feed. */
  function Unlines(lines: seq<string>): string {
    if lines == [] then "" else lines[0] + "\n" + Unlines(lines[1..])
  }

  /** The first line ends at the first line feed, a carriage return before it dropped. */
  lemma LinesCons(line: string, rest: string)
    requires '\n' !in line
    ensures Lines(line + "\n" + rest) == [StripCr(line)] + Lines(rest)
  {
    var s := line + "\n" + rest;
    assert s == line + ['\n'] + rest;
    assert s[..|line|] == line;
    IndexOfAt(s, '\n', |line|);
    assert s[|line| + 1..] == rest;
  }

  /**
   * Round trip: lines free of line feeds and of trailing carriage returns,
   * written out one per line, read back as themselves.
   */
  lemma {:induction false} LinesUnlines(lines: seq<string>)
    requires forall i :: 0 <= i < |lines| ==> '\n' !in lines[i] && StripCr(lines[i]) == lines[i]
    ensures Lines(Unlines(lines)) == lines
  {
    if lines != [] {
      LinesCons(lines[0], Unlines(lines[1..]));
      LinesUnlines(lines[1..]);
    }
  }

  /** A CRLF ends a line just as a bare LF does. */
  lemma LinesCrLf(line: string, rest: string)
    requires '\n' !in line && '\r' !in line
    ensures Lines(line + "\r\n" + rest) == [line] + Lines(rest)
  {
    assert line + "\r\n" + rest == (line + "\r") + "\n" + rest;
    LinesCons(line + "\r", rest);
    assert (line + "\r")[..|line|] == line;
  }

  // ---------------------------------------------------------------------------
  // trim, trim_matches

  /** `s` with every leading character that satisfies `strip` removed. */
  function TrimStartBy(s: string, strip: char -> bool): (r: string)
    ensures |r| <= |s| && r == s[|s| - |r|..]
    ensures forall i :: 0 <= i < |s| - |r| ==> strip(s[i])
    ensures r == [] || !strip(r[0])
  {
    if s != [] && strip(s[0]) then TrimStartBy(s[1..], strip) else s
  }

  /** `s` with every trailing character that satisfies `strip` removed. */
  function TrimEndBy(s: string, strip: char -> bool): (r: string)
    ensures |r| <= |s| && r == s[..|r|]
    ensures forall i :: |r| <= i < |s| ==> strip(s[i])
    ensures r == [] || !strip(r[|r| - 1])
  {
    if s != [] && strip(s[|s| - 1]) then TrimEndBy(s[..|s| - 1], strip) else s
  }

  /** `str::trim`: leading and trailing whitespace removed. */
  function Trim(s: string): string {
    TrimEndBy(TrimStartBy(s, IsWhitespace), IsWhitespace)
  }

  /** `str::trim_matches(c)`: every leading and trailing `c` removed. */
  function TrimMatches(s: string, c: char): string {
    TrimEndBy(TrimStartBy(s, x => x == c), x => x == c)
  }

  /** Stripping from the front stops exactly at the first character kept. */
  lemma TrimStartOf(lead: string, rest: string, strip: char -> bool)
    requires forall j :: 0 <= j < |lead| ==> strip(lead[j])
    requires rest == [] || !strip(rest[0])
    ensures TrimStartBy(lead + rest, strip) == rest
  {
    var s := lead + rest;
    var r := TrimStartBy(s, strip);
    assert forall i :: 0 <= i < |lead| ==> s[i] == lead[i];
    assert r != [] ==> r[0] == s[|s| - |r|];
    assert rest != [] ==> s[|lead|] == rest[0];
    assert s[|s| - |rest|..] == rest;
  }

  /** Stripping from the back stops exactly at the last character kept. */
  lemma TrimEndOf(rest: string, trail: string, strip: char -> bool)
    requires forall j :: 0 <= j < |trail| ==> strip(trail[j])
    requires rest == [] || !strip(rest[|rest| - 1])
    ensures TrimEndBy(rest + trail, strip) == rest
  {
    var s := rest + trail;
    var r := TrimEndBy(s, strip);
    assert forall i :: |rest| <= i < |s| ==> s[i] == trail[i - |rest|];
    assert r != [] ==> r[|r| - 1] == s[|r| - 1];
    assert rest != [] ==> s[|rest| - 1] == rest[|rest| - 1];
    assert s[..|rest|] == rest;
  }

  /**
   * What `trim` keeps, stated the other way round: whatever whitespace
   * surrounds a text that neither starts nor ends with whitespace, trimming
   * gives exactly that text.
   */
  lemma TrimOf(lead: string, mid: string, trail: string)
    requires forall j :: 0 <= j < |lead| ==> IsWhitespace(lead[j])
    requires forall j :: 0 <= j < |trail| ==> IsWhitespace(trail[j])
    requires mid == [] || (!IsWhitespace(mid[0]) && !IsWhitespace(mid[|mid| - 1]))
    ensures Trim(lead + mid + trail) == mid
  {
    if mid == [] {
      assert lead + mid + trail == (lead + trail) + [];
      TrimStartOf(lead + trail, [], IsWhitespace);
    } else {
      assert lead + mid + trail == lead + (mid + trail);
      TrimStartOf(lead, mid + trail, IsWhitespace);
      TrimEndOf(mid, trail, IsWhitespace);
    }
  }

  // ---------------------------------------------------------------------------
  // decimal numbers

  function DigitChar(d: nat): (c: char)
    requires d < 10
    ensures IsDigit(c)
  {
    ['0', '1', '2', '3', '4', '5', '6', '7', '8', '9'][d]
  }

  function DigitValue(c: char): nat
    requires IsDigit(c)
  {
    c as int - '0' as int
  }

  /** The number a run of decimal digits spells, most significant first. */
  function DigitsValue(s: string): nat
    requires AllDigits(s)
  {
    if s == [] then 0 else DigitsValue(s[..|s| - 1]) * 10 + DigitValue(s[|s| - 1])
  }

  /** `n.to_string()` for an unsigned integer: its shortest decimal spelling. */
  function Decimal(n: nat): (r: string)
    ensures r != [] && AllDigits(r)
    ensures DigitsValue(r) == n
    ensures r[0] == '0' ==> n == 0
  {
    if n < 10 then [DigitChar(n)]
    else
      var r := Decimal(n / 10) + [DigitChar(n % 10)];
      assert r[..|r| - 1] == Decimal(n / 10);
      r
  }

  /** Distinct numbers have distinct decimal spellings. */
  lemma DecimalInjective(m: nat, n: nat)
    requires Decimal(m) == Decimal(n)
    ensures m == n
  {
  }

  const UsizeMax: nat := 0xFFFF_FFFF_FFFF_FFFF

  /**
   * `s.parse::<usize>()` on a 64-bit target: an optional `+` and then one or
   * more ASCII digits whose value fits in 64 bits; anything else (empty, a
   * sign alone, a `-`, whitespace, any other character, overflow) is an error.
   */
  function ParseUsize(s: string): (r: Option<nat>)
    ensures r.Some? ==> r.value <= UsizeMax
  {
    var digits := if |s| > 1 && s[0] == '+' then s[1..] else s;
    if digits != [] && AllDigits(digits) && DigitsValue(digits) <= UsizeMax
    then Some(DigitsValue(digits)) else None
  }

  /** Round trip: parsing the decimal spelling of a 64-bit value gives it back. */
  lemma ParseDecimal(n: nat)
    requires n <= UsizeMax
    ensures ParseUsize(Decimal(n)) == Some(n)
  {
  }
}
