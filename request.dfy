/** The request parser of the server (`parseRequest` in app/server.go): a raw
    request text becomes a verb, a path, a header map and a body. */
module Request {
  import opened Text

  /** The cut set strings.Trim is given for header values and for the body. */
  const Whitespace: string := " \r\n"

  /** A parsed request (`verb` is the request method): header keys are lower-cased, values and body trimmed. */
  datatype Request = Request(headers: map<string, string>, verb: string, path: string, body: string)

  /** A Go map index: the value under `key`, or the empty string when there is none. */
  function Lookup(headers: map<string, string>, key: string): string
  {
    if key in headers then headers[key] else ""
  }

  /** The key a header line is stored under: the text before its first ':',
      lower-cased and not otherwise trimmed (the whole line when there is no ':'). */
  function HeaderKey(line: string): string
  {
    ToLower(Cut(line, ":").before)
  }

  /** The value of a header line: the text after its first ':', trimmed of
      spaces, CR and LF (empty when there is no ':'). */
  function HeaderValue(line: string): string
  {
    Trim(Cut(line, ":").after, Whitespace)
  }

  /** The header map built from `lines` in order; a later line overwrites an
      earlier one with the same key. */
  function HeaderMap(lines: seq<string>): map<string, string>
  {
    Store(lines, HeaderKey, HeaderValue)
  }

  /** The map that stores every item in order under `key` with `value`, a
      later item overwriting an earlier one with the same key. */
  function Store<T>(items: seq<T>, key: T -> string, value: T -> string): map<string, string>
  {
    if items == [] then map[]
    else
      var last := items[|items| - 1];
      Store(items[..|items| - 1], key, value)[key(last) := value(last)]
  }

  /** The lines of the head: the text before the first empty line, split at CRLF. */
  function HeadLines(raw: string): (lines: seq<string>)
    ensures 1 <= |lines|
  {
    Split(Cut(raw, BlankLine).before, CRLF)
  }

  /** The request line holds a space, so that it has a second token: without
      one the source indexes `url[1]` out of range. */
  predicate HasTarget(raw: string)
  {
    Contains(HeadLines(raw)[0], " ")
  }

  /** The request `parseRequest` returns for `raw`. */
  function Parse(raw: string): Request
    requires HasTarget(raw)
  {
    var cut := Cut(raw, BlankLine);
    var lines := Split(cut.before, CRLF);
    var url := Split(lines[0], " ");
    Request(HeaderMap(lines[1..]), url[0], url[1], Trim(cut.after, Whitespace))
  }

  /** The loop of parseRequest over the header lines: each line is cut at its
      first ':' and stored, later lines overwriting earlier ones. */
  method ParseHeaders(fields: seq<string>) returns (hs: map<string, string>)
    ensures hs == HeaderMap(fields)
  {
    hs := map[];
    for i := 0 to |fields|
      invariant hs == HeaderMap(fields[..i])
    {
      var h := Cut(fields[i], ":");
      var key := ToLower(h.before);
      var value := Trim(h.after, Whitespace);
      StoreStep(fields, i, HeaderKey, HeaderValue);
      hs := hs[key := value];
    }
    assert fields[..|fields|] == fields;
  }

  /** parseRequest: the head and body around the first empty line, the header
      map from the lines after the request line, and the first two tokens of
      the request line. */
  method ParseRequest(raw: string) returns (req: Request)
    requires HasTarget(raw)
    ensures req == Parse(raw)
  {
    var cut := Cut(raw, BlankLine);
    var headLines := Split(cut.before, CRLF);
    var hs := ParseHeaders(headLines[1..]);
    var url := Split(headLines[0], " ");
    req := Request(hs, url[0], url[1], Trim(cut.after, Whitespace));
  }

  /** Storing one more item of a sequence extends the map by that item. */
  lemma StoreStep<T>(items: seq<T>, i: nat, key: T -> string, value: T -> string)
    requires i < |items|
    ensures Store(items[..i + 1], key, value) == Store(items[..i], key, value)[key(items[i]) := value(items[i])]
  {
    assert items[..i + 1][..i] == items[..i];
  }

  /** The text of a request with the given request line, header lines and body. */
  function RequestText(requestLine: string, fields: seq<string>, body: string): string
  {
    Join([requestLine] + fields, CRLF) + BlankLine + body
  }

  // ---------------------------------------------------------------------------
  // Lemmas
  // ---------------------------------------------------------------------------

  /** A key is in the header map exactly when some line carries it. */
  lemma {:induction false} HeaderMapKeys(lines: seq<string>, key: string)
    ensures key in HeaderMap(lines) <==> exists i :: 0 <= i < |lines| && HeaderKey(lines[i]) == key
    decreases |lines|
  {
    if lines != [] {
      var init := lines[..|lines| - 1];
      HeaderMapKeys(init, key);
      if key in HeaderMap(init) {
        var i :| 0 <= i < |init| && HeaderKey(init[i]) == key;
        assert lines[i] == init[i];
      }
      if exists i :: 0 <= i < |lines| && HeaderKey(lines[i]) == key {
        var i :| 0 <= i < |lines| && HeaderKey(lines[i]) == key;
        if i < |lines| - 1 {
          assert init[i] == lines[i];
        }
      }
    }
  }

  /** A store of two items and of three items. */
  lemma StoreTwo<T>(a: T, b: T, key: T -> string, value: T -> string)
    ensures Store([a, b], key, value) == map[key(a) := value(a)][key(b) := value(b)]
  {
    assert [a, b][..1] == [a];
    assert [a][..0] == [];
    assert Store([a], key, value) == map[key(a) := value(a)];
  }

  lemma StoreThree<T>(a: T, b: T, c: T, key: T -> string, value: T -> string)
    ensures Store([a, b, c], key, value) == map[key(a) := value(a)][key(b) := value(b)][key(c) := value(c)]
  {
    assert [a, b, c][..2] == [a, b];
    StoreTwo(a, b, key, value);
  }

  /** In a store, the value under a key is that of the last item carrying it. */
  lemma {:induction false} StoreLastWins<T>(items: seq<T>, i: nat, key: T -> string, value: T -> string)
    requires i < |items|
    requires forall j :: i < j < |items| ==> key(items[j]) != key(items[i])
    ensures key(items[i]) in Store(items, key, value)
    ensures Store(items, key, value)[key(items[i])] == value(items[i])
    decreases |items|
  {
    if i < |items| - 1 {
      var init := items[..|items| - 1];
      assert init[i] == items[i];
      forall j | i < j < |init|
        ensures key(init[j]) != key(init[i])
      {
        assert init[j] == items[j];
      }
      StoreLastWins(init, i, key, value);
    }
  }

  /** The value stored under a key is the value of the last line carrying it. */
  lemma HeaderMapLastWins(lines: seq<string>, i: nat)
    requires i < |lines|
    requires forall j :: i < j < |lines| ==> HeaderKey(lines[j]) != HeaderKey(lines[i])
    ensures HeaderKey(lines[i]) in HeaderMap(lines)
    ensures HeaderMap(lines)[HeaderKey(lines[i])] == HeaderValue(lines[i])
  {
    StoreLastWins(lines, i, HeaderKey, HeaderValue);
  }

  /** A line `name:value` whose name has no ':' is stored under the lower-cased
      name with the trimmed value. */
  lemma HeaderLineParts(name: string, value: string)
    requires ':' !in name
    ensures HeaderKey(name + ":" + value) == ToLower(name)
    ensures HeaderValue(name + ":" + value) == Trim(value, Whitespace)
  {
    IndexAfterClean(name, ":", value);
    var line := name + ":" + value;
    assert line[..|name|] == name;
    assert line[|name| + 1..] == value;
  }

  /** A line `name: value` in the usual layout, one space after the colon, is
      stored under the lower-cased name with the trimmed value. */
  lemma HeaderLineSpaced(name: string, value: string)
    requires ':' !in name
    ensures HeaderKey(name + ": " + value) == ToLower(name)
    ensures HeaderValue(name + ": " + value) == Trim(value, Whitespace)
  {
    var spaced := [' '] + value;
    var line := name + ":" + spaced;
    assert line == name + ": " + value;
    assert HeaderKey(line) == ToLower(name) && HeaderValue(line) == Trim(spaced, Whitespace) by {
      HeaderLineParts(name, spaced);
    }
    assert Trim(spaced, Whitespace) == Trim(value, Whitespace) by {
      TrimLeadingCut(' ', value, Whitespace);
    }
  }

  /** A line without ':' is stored, lower-cased as a whole, with the empty value. */
  lemma HeaderLineWithoutColon(line: string)
    requires ':' !in line
    ensures HeaderKey(line) == ToLower(line)
    ensures HeaderValue(line) == ""
  {
    IndexClean(line, ":");
  }

  /** Header names that differ only in ASCII case give the same entry. */
  lemma HeaderNameCaseInsensitive(name1: string, name2: string, value: string)
    requires ':' !in name1 && ':' !in name2
    requires ToLower(name1) == ToLower(name2)
    ensures HeaderKey(name1 + ":" + value) == HeaderKey(name2 + ":" + value)
    ensures HeaderValue(name1 + ":" + value) == HeaderValue(name2 + ":" + value)
  {
    HeaderLineParts(name1, value);
    HeaderLineParts(name2, value);
  }

  /** The method is the text before the first space of the request line, and
      the path the text after it up to the next space or the end of the line. */
  lemma RequestLineTokens(raw: string)
    requires HasTarget(raw)
    ensures var line := HeadLines(raw)[0];
      var first := Cut(line, " ");
      Parse(raw).verb == first.before && !Contains(Parse(raw).verb, " ") &&
      Parse(raw).path == Cut(first.after, " ").before && !Contains(Parse(raw).path, " ")
  {
    var line := HeadLines(raw)[0];
    var url := Split(line, " ");
    var i := Index(line, " ");
    assert url == [line[..i]] + Split(line[i + 1..], " ");
    SplitPiecesFree(line, " ");
  }

  /** Without an empty line the whole text is the head and the body is empty. */
  lemma NoBlankLineNoBody(raw: string)
    requires HasTarget(raw) && !Contains(raw, BlankLine)
    ensures HeadLines(raw) == Split(raw, CRLF)
    ensures Parse(raw).body == ""
  {
  }

  /** The head of a request text is its request line and header lines, and
      what follows the first empty line is its body. */
  lemma RequestTextParts(requestLine: string, fields: seq<string>, body: string)
    requires requestLine != "" && LineText(requestLine)
    requires forall k :: 0 <= k < |fields| ==> fields[k] != "" && LineText(fields[k])
    ensures var raw := RequestText(requestLine, fields, body);
      HeadLines(raw) == [requestLine] + fields && Cut(raw, BlankLine).after == body
  {
    var lines := [requestLine] + fields;
    forall k | 0 <= k < |lines|
      ensures lines[k] != "" && LineText(lines[k])
    {
      if k > 0 {
        assert lines[k] == fields[k - 1];
      }
    }
    CutAfterLines(lines, body);
    SplitOfJoin(lines, CRLF);
  }

  /** The first two space-separated tokens of `verb path version` are the verb
      and the path. */
  lemma RequestLineSplit(verb: string, path: string, version: string)
    requires ' ' !in verb && ' ' !in path
    ensures var url := Split(verb + " " + path + " " + version, " ");
      2 <= |url| && url[0] == verb && url[1] == path
  {
    var rest := path + " " + version;
    var line := verb + " " + rest;
    assert verb + " " + path + " " + version == line;
    IndexAfterClean(verb, " ", rest);
    assert line[..|verb|] == verb;
    assert line[|verb| + 1..] == rest;
    IndexAfterClean(path, " ", version);
    assert rest[..|path|] == path;
    assert Split(line, " ") == [verb] + Split(rest, " ");
  }

  /** Parsing the text of a request gives back its verb, its path, the header
      map of its header lines, and its body trimmed. */
  lemma ParseRequestText(verb: string, path: string, version: string, fields: seq<string>, body: string)
    requires ' ' !in verb && ' ' !in path
    requires LineText(verb) && LineText(path) && LineText(version)
    requires forall k :: 0 <= k < |fields| ==> fields[k] != "" && LineText(fields[k])
    ensures var raw := RequestText(verb + " " + path + " " + version, fields, body);
      HasTarget(raw) && Parse(raw) == Request(HeaderMap(fields), verb, path, Trim(body, Whitespace))
  {
    var requestLine := verb + " " + path + " " + version;
    var raw := RequestText(requestLine, fields, body);
    assert requestLine != "" && LineText(requestLine);
    RequestTextParts(requestLine, fields, body);
    RequestLineSplit(verb, path, version);
    ParseParts(raw, [requestLine] + fields, body);
  }

  /** Parse in terms of the head lines and the body text. */
  lemma ParseParts(raw: string, lines: seq<string>, body: string)
    requires HeadLines(raw) == lines && Cut(raw, BlankLine).after == body
    requires 2 <= |Split(lines[0], " ")|
    ensures HasTarget(raw)
    ensures Parse(raw) == Request(HeaderMap(lines[1..]), Split(lines[0], " ")[0], Split(lines[0], " ")[1], Trim(body, Whitespace))
  {
  }
}
