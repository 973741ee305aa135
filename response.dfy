/** The response side of the server: the `HTTPResponse` record, the bytes its
    `Read` method renders, and the chunk a single `Read` call copies into the
    caller's buffer (app/server.go:25-57). */
module Response {
  import opened Text
  import Request

  /** The protocol Read writes when the record leaves it empty. */
  const DefaultProtocol: string := "HTTP/1.1"

  /** The size of the buffer io.Copy hands to Read when the writer is a TCP
      connection and the reader is neither a file nor a connection. */
  const CopyBufferSize: nat := 32 * 1024

  /** An `HTTPResponse`; `body` holds the bytes of a Go `[]byte`. */
  datatype Response = Response(
    protocol: string,
    body: string,
    status: string,
    contentType: string,
    contentEncoding: string,
    contentLength: int,
    statusCode: int,
    readBytes: int)

  /** The zero value `HTTPResponse{}` every connection starts from. */
  const Empty: Response := Response("", "", "", "", "", 0, 0, 0)

  /** The literal replies written straight to the connection. */
  const OkReply: string := "HTTP/1.1 200 OK\r\n\r\n"
  const NotFoundReply: string := "HTTP/1.1 404 Not Found\r\n\r\n"

  /** What a handler leaves for the connection: a literal written as it is, a
      response streamed through io.Copy, a response that was decided but is
      never written, or a literal written to the connection field of the parsed
      request. That field is never set, so the write is a call on a nil
      `net.Conn`: it panics before any byte goes out and the process exits. */
  datatype Reply =
    | Written(text: string)
    | Streamed(res: Response)
    | Unsent(res: Response)
    | Panicked(text: string)

  /** The protocol of the status line: the record's own, or HTTP/1.1 when empty. */
  function Protocol(res: Response): (p: string)
    ensures p != ""
    ensures res.protocol != "" ==> p == res.protocol
    ensures res.protocol == "" ==> p == DefaultProtocol
  {
    if res.protocol == "" then DefaultProtocol else res.protocol
  }

  /** The header block as Read formats it: Content-Type and Content-Length, and
      Content-Encoding after them only when the encoding is set. */
  function Headers(res: Response): string
  {
    var headers := "Content-Type: " + res.contentType + CRLF + "Content-Length: " + Itoa(res.contentLength);
    if res.contentEncoding != "" then headers + CRLF + "Content-Encoding: " + res.contentEncoding else headers
  }

  /** The bytes Read renders: status line, header block, empty line, body. */
  function Serialize(res: Response): string
  {
    Protocol(res) + " " + Itoa(res.statusCode) + " " + res.status + "\r\n" + Headers(res) + "\r\n\r\n" + res.body
  }

  // ---------------------------------------------------------------------------
  // The rendering as a message: a head of lines, an empty line, a body
  // ---------------------------------------------------------------------------

  /** The status line. */
  function StatusLine(res: Response): string
  {
    Protocol(res) + " " + Itoa(res.statusCode) + " " + res.status
  }

  /** The header lines, in the order Read writes them. */
  function HeaderLines(res: Response): (lines: seq<string>)
    ensures |lines| == if res.contentEncoding != "" then 3 else 2
  {
    ["Content-Type: " + res.contentType, "Content-Length: " + Itoa(res.contentLength)]
    + (if res.contentEncoding != "" then ["Content-Encoding: " + res.contentEncoding] else [])
  }

  /** The lines of the head: the status line, then the header lines. */
  function ResponseHead(res: Response): seq<string>
  {
    [StatusLine(res)] + HeaderLines(res)
  }

  /** Fields that fit on one line each, so that the rendering keeps its framing. */
  predicate Renderable(res: Response)
  {
    LineText(res.protocol) && LineText(res.status) && LineText(res.contentType) && LineText(res.contentEncoding)
  }

  /** Join of two and of three lines. */
  lemma JoinTwo(a: string, b: string)
    ensures Join([a, b], CRLF) == a + CRLF + b
  {
    assert [a, b][1..] == [b];
  }

  lemma JoinThree(a: string, b: string, c: string)
    ensures Join([a, b, c], CRLF) == a + CRLF + (b + CRLF + c)
  {
    assert [a, b, c][1..] == [b, c];
    JoinTwo(b, c);
  }

  /** The header block is the CRLF-joined header lines. */
  lemma HeadersJoin(res: Response)
    ensures Headers(res) == Join(HeaderLines(res), CRLF)
  {
    var ct := "Content-Type: " + res.contentType;
    var cl := "Content-Length: " + Itoa(res.contentLength);
    if res.contentEncoding != "" {
      var ce := "Content-Encoding: " + res.contentEncoding;
      assert HeaderLines(res) == [ct, cl, ce];
      JoinThree(ct, cl, ce);
    } else {
      assert HeaderLines(res) == [ct, cl];
      JoinTwo(ct, cl);
    }
  }

  /** The rendering is the CRLF-joined head lines, the empty line and the body. */
  lemma SerializeLines(res: Response)
    ensures Serialize(res) == Join(ResponseHead(res), CRLF) + BlankLine + res.body
  {
    var hl := ResponseHead(res);
    assert Join(hl, CRLF) == StatusLine(res) + CRLF + Headers(res) by {
      HeadersJoin(res);
      assert hl[1..] == HeaderLines(res);
    }
  }

  /** Every head line of a renderable response is a non-empty line. */
  lemma ResponseHeadText(res: Response)
    requires Renderable(res)
    ensures forall k :: 0 <= k < |ResponseHead(res)| ==> ResponseHead(res)[k] != "" && LineText(ResponseHead(res)[k])
  {
    var hl := ResponseHead(res);
    forall k | 0 <= k < |hl|
      ensures hl[k] != "" && LineText(hl[k])
    {
      if k == 0 {
        StatusLineText(res);
      } else if k == 1 {
        FieldLineText("Content-Type: ", res.contentType);
      } else if k == 2 {
        ItoaText(res.contentLength);
        FieldLineText("Content-Length: ", Itoa(res.contentLength));
      } else {
        FieldLineText("Content-Encoding: ", res.contentEncoding);
      }
    }
  }

  /** The status line of a renderable response is a non-empty line. */
  lemma StatusLineText(res: Response)
    requires Renderable(res)
    ensures StatusLine(res) != "" && LineText(StatusLine(res))
  {
    ItoaText(res.statusCode);
  }

  /** A header name followed by a one-line value is a non-empty line. */
  lemma FieldLineText(name: string, value: string)
    requires name != "" && LineText(name) && LineText(value)
    ensures name + value != "" && LineText(name + value)
  {
  }

  /** A reader that cuts the rendering of a renderable response at its first
      empty line and splits the head at CRLF gets back the head lines and the
      body exactly. */
  lemma SerializeParts(res: Response)
    requires Renderable(res)
    ensures var cut := Cut(Serialize(res), BlankLine);
      cut.found && cut.after == res.body && Split(cut.before, CRLF) == ResponseHead(res)
  {
    SerializeLines(res);
    ResponseHeadText(res);
    CutAfterLines(ResponseHead(res), res.body);
    forall k | 0 <= k < |ResponseHead(res)|
      ensures CRLF[0] !in ResponseHead(res)[k]
    {
    }
    SplitOfJoin(ResponseHead(res), CRLF);
  }

  /** The first two tokens of the status line are the protocol and the code,
      and the code reads back with Atoi. */
  lemma StatusLineRoundTrip(res: Response)
    requires ' ' !in Protocol(res) && MinInt <= res.statusCode <= MaxInt
    ensures var tokens := Split(StatusLine(res), " ");
      2 <= |tokens| && tokens[0] == Protocol(res) && Atoi(tokens[1]) == res.statusCode
  {
    ItoaText(res.statusCode);
    Request.RequestLineSplit(Protocol(res), Itoa(res.statusCode), res.status);
    AtoiItoa(res.statusCode);
  }

  /** The `Content-Type` line is read back under the lower-cased name with its value trimmed. */
  lemma ContentTypeLine(contentType: string)
    ensures Request.HeaderKey("Content-Type: " + contentType) == ToLower("Content-Type")
    ensures Request.HeaderValue("Content-Type: " + contentType) == Trim(contentType, Request.Whitespace)
  {
    assert "Content-Type: " + contentType == "Content-Type" + ": " + contentType;
    Request.HeaderLineSpaced("Content-Type", contentType);
  }

  /** The `Content-Length` line is read back under the lower-cased name with the number as printed. */
  lemma ContentLengthLine(contentLength: int)
    ensures Request.HeaderKey("Content-Length: " + Itoa(contentLength)) == ToLower("Content-Length")
    ensures Request.HeaderValue("Content-Length: " + Itoa(contentLength)) == Itoa(contentLength)
  {
    var digits := Itoa(contentLength);
    assert "Content-Length: " + digits == "Content-Length" + ": " + digits;
    Request.HeaderLineSpaced("Content-Length", digits);
    ItoaText(contentLength);
    TrimUntouched(digits, Request.Whitespace);
  }

  /** The `Content-Encoding` line is read back under the lower-cased name with its value trimmed. */
  lemma ContentEncodingLine(contentEncoding: string)
    ensures Request.HeaderKey("Content-Encoding: " + contentEncoding) == ToLower("Content-Encoding")
    ensures Request.HeaderValue("Content-Encoding: " + contentEncoding) == Trim(contentEncoding, Request.Whitespace)
  {
    assert "Content-Encoding: " + contentEncoding == "Content-Encoding" + ": " + contentEncoding;
    Request.HeaderLineSpaced("Content-Encoding", contentEncoding);
  }

  /** The three header names stay apart once lower-cased. */
  lemma FieldKeysDistinct()
    ensures ToLower("Content-Type") != ToLower("Content-Length")
    ensures ToLower("Content-Type") != ToLower("Content-Encoding")
    ensures ToLower("Content-Length") != ToLower("Content-Encoding")
  {
    assert |ToLower("Content-Type")| == 12;
    assert |ToLower("Content-Length")| == 14;
    assert |ToLower("Content-Encoding")| == 16;
  }

  /** Read back with the server's own header parser, the header lines of a
      response without an encoding give exactly its content type (trimmed) and
      its content length, each under the lower-cased name. */
  lemma PlainHeaderMap(res: Response)
    requires res.contentEncoding == ""
    ensures Request.HeaderMap(HeaderLines(res)) ==
      map[ToLower("Content-Type") := Trim(res.contentType, Request.Whitespace),
          ToLower("Content-Length") := Itoa(res.contentLength)]
    ensures |Request.HeaderMap(HeaderLines(res))| == 2
  {
    var ct := "Content-Type: " + res.contentType;
    var cl := "Content-Length: " + Itoa(res.contentLength);
    assert HeaderLines(res) == [ct, cl];
    assert Request.HeaderMap([ct, cl]) == map[ToLower("Content-Type") := Trim(res.contentType, Request.Whitespace),
        ToLower("Content-Length") := Itoa(res.contentLength)] by {
      ContentTypeLine(res.contentType);
      ContentLengthLine(res.contentLength);
      Request.StoreTwo(ct, cl, Request.HeaderKey, Request.HeaderValue);
    }
    FieldKeysDistinct();
    TwoKeys(ToLower("Content-Type"), ToLower("Content-Length"), Trim(res.contentType, Request.Whitespace), Itoa(res.contentLength));
  }

  /** Read back with the server's own header parser, the header lines of a
      response with an encoding give exactly its content type, content length
      and encoding. */
  lemma EncodedHeaderMap(res: Response)
    requires res.contentEncoding != ""
    ensures Request.HeaderMap(HeaderLines(res)) ==
      map[ToLower("Content-Type") := Trim(res.contentType, Request.Whitespace),
          ToLower("Content-Length") := Itoa(res.contentLength),
          ToLower("Content-Encoding") := Trim(res.contentEncoding, Request.Whitespace)]
    ensures |Request.HeaderMap(HeaderLines(res))| == 3
  {
    var ct := "Content-Type: " + res.contentType;
    var cl := "Content-Length: " + Itoa(res.contentLength);
    var ce := "Content-Encoding: " + res.contentEncoding;
    assert HeaderLines(res) == [ct, cl, ce];
    assert Request.HeaderMap([ct, cl, ce]) == map[ToLower("Content-Type") := Trim(res.contentType, Request.Whitespace),
        ToLower("Content-Length") := Itoa(res.contentLength),
        ToLower("Content-Encoding") := Trim(res.contentEncoding, Request.Whitespace)] by {
      ContentTypeLine(res.contentType);
      ContentLengthLine(res.contentLength);
      ContentEncodingLine(res.contentEncoding);
      Request.StoreThree(ct, cl, ce, Request.HeaderKey, Request.HeaderValue);
    }
    FieldKeysDistinct();
    ThreeKeys(ToLower("Content-Type"), ToLower("Content-Length"), ToLower("Content-Encoding"),
      Trim(res.contentType, Request.Whitespace), Itoa(res.contentLength), Trim(res.contentEncoding, Request.Whitespace));
  }

  /** A map of two or three distinct keys has that many entries. */
  lemma TwoKeys(a: string, b: string, x: string, y: string)
    requires a != b
    ensures |map[a := x, b := y]| == 2
  {
  }

  lemma ThreeKeys(a: string, b: string, c: string, x: string, y: string, z: string)
    requires a != b && a != c && b != c
    ensures |map[a := x, b := y, c := z]| == 3
  {
  }

  // ---------------------------------------------------------------------------
  // One call of Read
  // ---------------------------------------------------------------------------

  /** The count Read returns for a rendering of `size` bytes and a buffer of
      `capacity`: the capacity when the rendering fills it, else the size. */
  function ReadCount(size: nat, capacity: nat): (n: nat)
    ensures n <= size && n <= capacity
    ensures n == size || n == capacity
  {
    if size >= capacity then capacity else size
  }

  /** The bytes Read copies into the buffer: the rendering from `readBytes` up
      to the count it returns. */
  function Chunk(res: Response, capacity: nat): (chunk: string)
    requires 0 <= res.readBytes <= ReadCount(|Serialize(res)|, capacity)
    ensures |chunk| == ReadCount(|Serialize(res)|, capacity) - res.readBytes
  {
    Serialize(res)[res.readBytes..ReadCount(|Serialize(res)|, capacity)]
  }

  /** `HTTPResponse.Read`: renders the response, copies the chunk from
      `res.readBytes` into `buf` and reports the count and EOF. The receiver is
      a value, so nothing records how far the rendering has been read. */
  method Read(res: Response, buf: array<char>) returns (n: int, eof: bool)
    requires 0 <= res.readBytes <= ReadCount(|Serialize(res)|, buf.Length)
    modifies buf
    ensures n == ReadCount(|Serialize(res)|, buf.Length)
    ensures eof <==> |Serialize(res)| < buf.Length
    ensures buf[..|Chunk(res, buf.Length)|] == Chunk(res, buf.Length)
    ensures buf[|Chunk(res, buf.Length)|..] == old(buf[|Chunk(res, buf.Length)|..])
  {
    var s := Serialize(res);
    if |s| >= buf.Length {
      n, eof := buf.Length, false;
    } else {
      n, eof := |s|, true;
    }
    CopySlice(s, res.readBytes, n, buf);
  }

  /** Go's `copy(buf, s[from:to])` when the slice fits in `buf`: the slice
      goes to the front of `buf` and the rest of `buf` is left as it was. */
  method CopySlice(s: string, from: int, to: int, buf: array<char>)
    requires 0 <= from <= to <= |s| && to - from <= buf.Length
    modifies buf
    ensures buf[..to - from] == s[from..to]
    ensures buf[to - from..] == old(buf[to - from..])
  {
    for i := 0 to to - from
      invariant buf[..i] == s[from..from + i]
      invariant buf[i..] == old(buf[i..])
    {
      buf[i] := s[from + i];
    }
  }

  /** A read from the start with a buffer larger than the rendering copies the
      whole rendering and reports its length and EOF. */
  lemma ReadWhole(res: Response, capacity: nat)
    requires res.readBytes == 0 && |Serialize(res)| < capacity
    ensures Chunk(res, capacity) == Serialize(res)
    ensures ReadCount(|Serialize(res)|, capacity) == |Serialize(res)|
  {
  }

  /** A read from the start with a buffer the rendering fills copies the first
      `capacity` bytes and reports exactly that many. */
  lemma ReadFillsBuffer(res: Response, capacity: nat)
    requires res.readBytes == 0 && capacity <= |Serialize(res)|
    ensures Chunk(res, capacity) == Serialize(res)[..capacity]
    ensures ReadCount(|Serialize(res)|, capacity) == capacity
  {
  }

  /** The count Read reports exceeds the bytes it copies by `readBytes`: it
      counts from the start of the rendering, not from the cursor. */
  lemma ReadCountsFromStart(res: Response, capacity: nat)
    requires 0 <= res.readBytes <= ReadCount(|Serialize(res)|, capacity)
    ensures ReadCount(|Serialize(res)|, capacity) == res.readBytes + |Chunk(res, capacity)|
    ensures ReadCount(|Serialize(res)|, capacity) == |Chunk(res, capacity)| <==> res.readBytes == 0
  {
  }

  // ---------------------------------------------------------------------------
  // io.Copy over the value-receiver Read, as written
  // ---------------------------------------------------------------------------

  /** What io.Copy has written so far, and whether it has met EOF. */
  datatype Copied = Copied(written: string, done: bool)

  /** The bytes io.Copy has written after `calls` calls of Read on `res` with a
      buffer of `capacity`, and whether it has met EOF. Each call gets the same
      value, cursor 0, so each one copies the same chunk. */
  function CopyAsWritten(res: Response, capacity: nat, calls: nat): (r: Copied)
    requires res.readBytes == 0
  {
    var s := Serialize(res);
    if calls == 0 then Copied("", false)
    else if |s| < capacity then Copied(s, true)
    else
      var more := CopyAsWritten(res, capacity, calls - 1);
      Copied(s[..capacity] + more.written, more.done)
  }

  /** `n` copies of `s` back to back. */
  function Repeat(s: string, n: nat): (r: string)
    ensures |r| == n * |s|
  {
    if n == 0 then "" else s + Repeat(s, n - 1)
  }

  /** When the rendering fills the buffer, io.Copy never meets EOF: after any
      number of calls it has written the first `capacity` bytes that many times. */
  lemma {:induction false} CopyAsWrittenStalls(res: Response, capacity: nat, calls: nat)
    requires res.readBytes == 0 && 0 < capacity <= |Serialize(res)|
    ensures !CopyAsWritten(res, capacity, calls).done
    ensures CopyAsWritten(res, capacity, calls).written == Repeat(Serialize(res)[..capacity], calls)
    decreases calls
  {
    if calls > 0 {
      CopyAsWrittenStalls(res, capacity, calls - 1);
    }
  }

  /** So as soon as it has written more bytes than the rendering holds, what
      io.Copy has written is not the rendering, and it goes on. */
  lemma CopyAsWrittenNeverDelivers(res: Response, capacity: nat, calls: nat)
    requires res.readBytes == 0 && 0 < capacity <= |Serialize(res)| && |Serialize(res)| < calls * capacity
    ensures CopyAsWritten(res, capacity, calls).written != Serialize(res)
    ensures !CopyAsWritten(res, capacity, calls).done
  {
    CopyAsWrittenStalls(res, capacity, calls);
  }

  /** A rendering shorter than the buffer goes out whole in the first read. */
  lemma CopyAsWrittenSmall(res: Response, capacity: nat, calls: nat)
    requires res.readBytes == 0 && |Serialize(res)| < capacity && 0 < calls
    ensures CopyAsWritten(res, capacity, calls) == Copied(Serialize(res), true)
  {
  }

  // ---------------------------------------------------------------------------
  // A reader whose cursor moves: the evidently intended Read
  // ---------------------------------------------------------------------------

  function Min(a: int, b: int): int
  {
    if a <= b then a else b
  }

  /** A response read by reference: each Read continues where the last
      one stopped. */
  class ResponseStream {
    const data: string
    var readBytes: nat

    predicate Valid()
      reads this
    {
      readBytes <= |data|
    }

    constructor (res: Response)
      ensures data == Serialize(res) && readBytes == 0 && Valid()
    {
      data := Serialize(res);
      readBytes := 0;
    }

    /** Copies the next unread bytes into `buf`, advances the cursor by the
        count it reports, and reports EOF once nothing is left. */
    method Read(buf: array<char>) returns (n: nat, eof: bool)
      requires Valid() && 0 < buf.Length
      modifies this, buf
      ensures Valid()
      ensures n == Min(buf.Length, |data| - old(readBytes))
      ensures readBytes == old(readBytes) + n
      ensures buf[..n] == data[old(readBytes)..readBytes]
      ensures eof <==> readBytes == |data|
    {
      var start := readBytes;
      n := Min(buf.Length, |data| - start);
      for i := 0 to n
        invariant buf[..i] == data[start..start + i]
      {
        buf[i] := data[start + i];
      }
      readBytes := start + n;
      eof := readBytes == |data|;
    }
  }

  /** io.Copy over a ResponseStream with a buffer of `capacity` bytes: it
      writes each chunk Read reports and stops at EOF, having written the
      rendering exactly once. */
  method Deliver(res: Response, capacity: nat) returns (out: string)
    requires 0 < capacity
    ensures out == Serialize(res)
  {
    var stream := new ResponseStream(res);
    var buf := new char[capacity];
    out := "";
    var eof := false;
    while !eof
      invariant stream.Valid() && stream.data == Serialize(res)
      invariant out == stream.data[..stream.readBytes]
      invariant eof ==> stream.readBytes == |stream.data|
      decreases |stream.data| - stream.readBytes, if eof then 0 else 1
    {
      var n;
      n, eof := stream.Read(buf);
      out := out + buf[..n];
    }
    assert out == stream.data;
  }
}
