# A verified model of a small HTTP/1.1 server core

This project models the protocol core of a small HTTP/1.1 server written in
Go (`app/server.go`). That core has four parts:

- **Request parser** (`parseRequest`). It cuts the raw request at the first
  empty line. It splits the head into CRLF lines. Each header line goes into a
  map under its lower-cased name, with the value trimmed. The method and the
  path are the first two space-separated tokens of the request line. The body
  is trimmed.
- **Response serialiser** (`HTTPResponse.Read`). It renders the status line,
  `Content-Type`, `Content-Length` and an optional `Content-Encoding`, then the
  empty line and the body. It copies one chunk of that rendering into the
  caller's buffer.
- **Router** (the `switch` of `handleConnection`). It takes the first matching
  case among `/`, `/echo/…`, `/user-agent…`, `/files…` (only with a directory)
  and a 404 fallback. It also contains the echo and user-agent handlers.
- **File handler** (`handleFiles`). POST stores the body, truncated to its
  declared length. Any other method reads the file back. A missing directory
  or file makes it write the 404 literal to the request's `conn` field. The
  file system is a `FileStore` object holding a map from path to contents and
  the set of directories that exist.

Modules:

- `Text` (`text.dfy`) holds the Go library functions the core calls. These
  are modelled exactly: `strings.Cut`, `Join`, `HasPrefix`, `CutPrefix` and
  `Contains`, `strconv.Atoi` (sign, syntax error gives 0, overflow clamps to
  the `int` bounds) and `%d`. `strings.Split` is modelled for non-empty
  separators and `strings.Trim` for ASCII cut sets; the server passes only
  `"\r\n"`, `" "` and `" \r\n"`. `ToLower` is modelled for ASCII only (see
  Left out). Each `char` stands for one byte of a Go string.
- `Request` (`request.dfy`): the parser.
- `Response` (`response.dfy`): the record, its rendering, `Read`, and the
  `io.Copy` loop that drives `Read`.
- `Files` (`files.dfy`): the store and the file handler.
- `Router` (`router.dfy`): dispatch, the handlers and the connection handler.

Behaviour of the source that the model keeps as it is:

- A `content-length` beyond the body is not clamped. app/server.go:111 slices
  `[]byte(req.body)[:bodyLength]`. That panics for a negative length or one
  past the capacity of the converted slice. A length between the body's
  length and that capacity reads the slice's zeroed spare bytes. The model
  requires `0 <= Atoi(content-length) <= |body|` for a POST that reaches the
  store (see Left out).
- A request line without a space has no second token. app/server.go:76
  indexes `url[1]` and panics. `Parse` requires the request line to hold a
  space.
- `Content-Type` is always written, even when it is empty
  (app/server.go:40-44).
- `Read` never advances its cursor (app/server.go:36-56). See Findings.
- `parseRequest` never sets the `conn` field of the request it returns
  (app/server.go:59-80). The 404 writes of `handleFiles` (app/server.go:96,
  101 and 123) therefore call `Write` on a nil `net.Conn` and panic. The reply
  `Panicked` records this. See Findings.

## Model

| member | source | states |
|---|---|---|
| Text.Index | app/server.go:61 | the result is -1 exactly when `sep` occurs nowhere; otherwise it is an occurrence with none before it |
| Text.Cut | app/server.go:61 | `found` exactly when `sep` occurs; then `s == before + sep + after`; otherwise `before == s` and `after` is empty |
| Text.CutFirst | app/server.go:67 | Cut splits at the first occurrence: no occurrence starts inside `before` |
| Text.Split | app/server.go:62 | at least one piece; at least two exactly when the separator occurs |
| Text.SplitFirst | app/server.go:74-75 | the first piece of Split is the text before the first separator |
| Text.SplitJoin | app/server.go:62 | joining the pieces of Split with the separator gives back the string |
| Text.SplitPiecesFree | app/server.go:74-76 | no piece of Split contains the separator |
| Text.SplitOfJoin | app/server.go:62 | Split undoes Join when no piece holds the separator's first character |
| Text.CutAfterLines | app/server.go:61 | after CRLF-joined non-empty lines, the first empty line is the one that follows them, so Cut returns exactly the lines and the rest |
| Text.TrimLeft | app/server.go:69 | the result is a suffix; every dropped byte is in the cut set; the result does not start with one |
| Text.TrimRight | app/server.go:69 | the result is a prefix; every dropped byte is in the cut set; the result does not end with one |
| Text.Trim | app/server.go:69 | the result is no longer than the input and neither starts nor ends with a cut-set byte |
| Text.TrimLeadingCut | app/server.go:69 | a leading cut-set byte does not change the result of Trim |
| Text.TrimUntouched | app/server.go:69 | Trim leaves unchanged a string whose ends are outside the cut set |
| Text.ToLower | app/server.go:68 | lower-casing keeps the length, leaves no byte in `A`..`Z`, maps each of those to its lower-case letter and leaves every other byte unchanged |
| Text.ToLowerIdempotent | app/server.go:68 | lower-casing twice is lower-casing once |
| Text.CutPrefix | app/server.go:149 | with the prefix present, prefix + result is the input; otherwise the input is returned unchanged |
| Text.Contains | app/server.go:150 | a predicate; ContainsOccurrence states its meaning |
| Text.HasPrefix | app/server.go:148 | a predicate: the first bytes of the text are the prefix; CutPrefix and DispatchFirstMatch use it |
| Text.ContainsOccurrence | app/server.go:150 | Contains holds exactly when some occurrence exists |
| Text.Itoa | app/server.go:41-43 | `%d` prints a leading `-` exactly for negative numbers, and digits elsewhere |
| Text.ItoaText | app/server.go:41-48 | what `%d` prints holds no CR, LF, space or colon and neither starts nor ends with a space |
| Text.Atoi | app/server.go:110 | the result always lies within the bounds of Go's 64-bit `int`; AtoiSyntax and AtoiClamp state the error cases |
| Text.Unsigned | app/server.go:110 | the digits Atoi scans are the text itself or the text after one leading sign |
| Text.AtoiSyntax | app/server.go:110 | Atoi gives 0 when nothing follows the sign, or a non-digit comes within the first 20 bytes after it, before any overflow |
| Text.ParseUintDigitsOverflow | app/server.go:110 | ParseUint reports a range error on the digits of every number past the largest uint64 |
| Text.AtoiClamp | app/server.go:110 | Atoi reads back what `%d` prints, clamped to the bound of `int` that the number passes |
| Text.ScanDecimal | app/server.go:110 | strconv's digit loop, with no ensures of its own; ParseUintDigits states what it reads |
| Text.ParseUint | app/server.go:110 | no ensures of its own; ParseUintDigits states that it reads back every uint64 |
| Text.ParseUintDigits | app/server.go:110 | ParseUint reads back the decimal digits of every uint64 |
| Text.AtoiItoa | app/server.go:110 | Atoi reads back what `%d` prints, for every `int` |
| Request.StoreLastWins | app/server.go:64-71 | in a store filled in order, the value under a key is that of the last item with that key |
| Request.HeaderMapLastWins | app/server.go:64-71 | a later header line with the same key overwrites an earlier one: the value stored is that of the last line carrying the key |
| Request.HeaderMapKeys | app/server.go:64-71 | a key is in the header map exactly when some header line yields it |
| Request.Lookup | app/server.go:163 | a Go map index, the empty string for a missing key; no ensures of its own; UserAgentReply and DeclaredLength state its missing-key case |
| Request.Store | app/server.go:64-71 | the last-wins fold; no ensures of its own; StoreLastWins states the value under each key |
| Request.HeaderMap | app/server.go:64-71 | no ensures of its own; HeaderMapLastWins and HeaderMapKeys state its keys and values, and ParseHeaders proves the loop builds it |
| Request.HeaderKey | app/server.go:67-68 | no ensures of its own; HeaderLineParts, HeaderLineSpaced and HeaderLineWithoutColon state the key of each kind of line |
| Request.HeaderValue | app/server.go:67-69 | no ensures of its own; HeaderLineParts and HeaderLineSpaced state the trimmed value |
| Request.HeaderLineParts | app/server.go:67-69 | `name:value` with no colon in the name is stored under the lower-cased name, not otherwise trimmed, with the value trimmed of space, CR and LF |
| Request.HeaderLineSpaced | app/server.go:67-69 | `name: value` is stored under the lower-cased name with the trimmed value |
| Request.HeaderLineWithoutColon | app/server.go:67-69 | a line without a colon is stored under the whole line lower-cased, with the empty value |
| Request.HeaderNameCaseInsensitive | app/server.go:68 | header names that differ only in ASCII case give the same key and value |
| Request.ParseHeaders | app/server.go:64-71 | the header loop builds the header map of its lines |
| Request.Parse | app/server.go:59-80 | no ensures of its own; ParseRequestText, RequestLineTokens and NoBlankLineNoBody state its results |
| Request.ParseRequest | app/server.go:59-80 | the parser returns `Parse(raw)`: the map of the lines after the request line, its first two tokens, and the trimmed text after the first empty line |
| Request.RequestLineTokens | app/server.go:74-76 | the method is the text before the first space of the request line and the path the text up to the next space; neither holds a space |
| Request.RequestLineSplit | app/server.go:74-76 | the first two tokens of `verb path version` are the verb and the path |
| Request.NoBlankLineNoBody | app/server.go:61-77 | without an empty line the whole input is the head and the body is empty |
| Request.RequestTextParts | app/server.go:61-62 | the head lines of a request text are its request line and header lines, and the text after the first empty line is its body |
| Request.ParseRequestText | app/server.go:59-80 | parsing the text of a request gives back its method, its path, the header map of its header lines, and its body trimmed |
| Response.Protocol | app/server.go:37-39 | an empty protocol becomes HTTP/1.1; a set one is kept |
| Response.Headers | app/server.go:40-47 | no ensures of its own; HeadersJoin states it is the CRLF join of the header lines |
| Response.Serialize | app/server.go:40-48 | no ensures of its own; SerializeLines, SerializeParts and StatusLineRoundTrip state its layout and that it parses back |
| Response.HeaderLines | app/server.go:40-47 | two header lines, or three when an encoding is set |
| Response.HeadersJoin | app/server.go:40-47 | the header block is the CRLF-joined header lines, with Content-Encoding only when set |
| Response.SerializeLines | app/server.go:40-48 | the rendering is the CRLF-joined status line and header lines, the empty line, and the body |
| Response.ResponseHeadText | app/server.go:40-48 | for fields without CR or LF every head line is a non-empty line |
| Response.SerializeParts | app/server.go:48 | cutting the rendering at its first empty line and splitting at CRLF gives back the head lines and the body exactly |
| Response.StatusLineRoundTrip | app/server.go:48 | the first two tokens of the status line are the protocol and the code, and Atoi reads the code back |
| Response.ContentTypeLine | app/server.go:41-42 | the Content-Type line parses back to the lower-cased name and the trimmed type |
| Response.ContentLengthLine | app/server.go:41-43 | the Content-Length line parses back to the lower-cased name and the number as printed |
| Response.ContentEncodingLine | app/server.go:45-46 | the Content-Encoding line parses back to the lower-cased name and the trimmed encoding |
| Response.FieldKeysDistinct | app/server.go:41-46 | the three header names stay distinct once lower-cased, so the header maps below have two or three entries |
| Response.PlainHeaderMap | app/server.go:40-44 | without an encoding, the server's own header parser reads the header lines back as exactly content-type and content-length, two entries |
| Response.EncodedHeaderMap | app/server.go:40-46 | with an encoding, the header lines read back as exactly content-type, content-length and content-encoding, three entries |
| Response.ReadCount | app/server.go:50-56 | the count Read returns is the capacity or the rendering's length, whichever is smaller |
| Response.Chunk | app/server.go:50-55 | the bytes copied run from `readBytes` to the returned count |
| Response.Read | app/server.go:36-56 | Read reports the capacity when the rendering fills the buffer, else the rendering's length with EOF; it copies the chunk from `readBytes` into the front of the buffer and leaves the rest of the buffer as it was |
| Response.CopySlice | app/server.go:50-55 | `copy` puts the slice at the front of the buffer and leaves the rest as it was |
| Response.ReadWhole | app/server.go:53-55 | from the start, a buffer larger than the rendering receives all of it, with its length and EOF |
| Response.ReadFillsBuffer | app/server.go:50-52 | from the start, a buffer the rendering fills receives its first `cap` bytes, with that count |
| Response.ReadCountsFromStart | app/server.go:50-56 | the reported count exceeds the bytes copied by `readBytes`; they agree only from the start |
| Response.CopyAsWritten | app/server.go:161-168 | io.Copy over the value-receiver Read; no ensures of its own; CopyAsWrittenStalls and CopyAsWrittenSmall state what it writes |
| Response.CopyAsWrittenStalls | app/server.go:36-56 | driven by io.Copy, the value-receiver Read never reports EOF once the rendering fills the buffer, and each call writes the same first bytes again |
| Response.CopyAsWrittenNeverDelivers | app/server.go:36-56 | so, once more bytes have been written than the rendering holds, what was written is not the rendering |
| Response.CopyAsWrittenSmall | app/server.go:53-56 | a rendering shorter than the buffer goes out whole in the first call, with EOF |
| Response.ResponseStream.Read | app/server.go:36-56 | a Read whose cursor moves copies the next unread bytes, advances the cursor by the count it reports, and reports EOF exactly when all bytes are read |
| Response.Deliver | app/server.go:161-168 | io.Copy over that reader writes the rendering exactly once |
| Files.FileStore.ReadFile | app/server.go:121-125 | the stored contents of the path, or an error when nothing is stored there |
| Files.FileStore.WriteFile | app/server.go:112 | the path now holds the data; nothing else changes |
| Files.FileName | app/server.go:105 | no ensures of its own; FileNameAfterPrefix and FileNameWithoutPrefix state it |
| Files.FilePath | app/server.go:106 | no ensures of its own; FileNameWithoutPrefix and PostThenGet use it |
| Files.DeclaredLength | app/server.go:110 | the declared length lies within Go's `int` bounds, and is 0 without a content-length header or when its value has an early syntax error |
| Files.FileReply | app/server.go:93-131 | no ensures of its own; NotConfiguredPanics, MissingFilePanics, ReadFileDecision and PostDecision state each outcome |
| Files.FilesAfter | app/server.go:107-112 | no ensures of its own; PostDecision and PostTouchesOnlyItsPath state the store after a POST, the other lemmas that nothing else changes it |
| Files.HandleFiles | app/server.go:93-131 | the handler returns `FileReply`, which is a 404 written to the nil connection on its error paths, and leaves the store as `FilesAfter` says |
| Files.FileNameAfterPrefix | app/server.go:105 | the file name of `/files/` + name is the name |
| Files.FileNameWithoutPrefix | app/server.go:105-106 | a path without `/files/` gives the empty file name, so the path is the directory plus a slash |
| Files.NotConfiguredPanics | app/server.go:94-103 | for an empty or missing directory the handler writes the literal 404 to the nil connection, which panics, and stores nothing |
| Files.MissingFilePanics | app/server.go:120-125 | for a read of a file that is not stored the handler writes the literal 404 to the nil connection, which panics, and stores nothing |
| Files.ReadFileDecision | app/server.go:126-130 | a read of a stored file decides 200 OK, application/octet-stream, the stored bytes and their length, and stores nothing |
| Files.PostDecision | app/server.go:107-119 | a POST stores the first `content-length` bytes of the body and decides 201 Created with them, leaving Content-Length and Content-Type unset |
| Files.PostTouchesOnlyItsPath | app/server.go:112 | a POST changes no other path |
| Files.PostThenGet | app/server.go:107-131 | a GET after a POST of the same file name reads back the stored bytes with 200 |
| Files.PostThenGetOnStore | app/server.go:107-131 | the same through the store: the second call answers with the bytes the first stored, and its length; the store afterwards holds exactly that change |
| Router.Dispatch | app/server.go:145-173 | the case taken has its condition satisfied; DispatchFirstMatch states it is the first such case |
| Router.EchoResponse | app/server.go:148-160 | no ensures of its own; EchoReply states it |
| Router.UserAgentResponse | app/server.go:162-167 | no ensures of its own; UserAgentReply states it |
| Router.Respond | app/server.go:145-173 | a written literal is the 200 or the 404 line, the 200 one exactly for `/`; a response is streamed exactly for the echo and user-agent cases; an unsent reply, and a 404 written to the nil connection, only come from the file case, and no literal written to the real connection does |
| Router.DispatchFirstMatch | app/server.go:145-173 | the switch takes the first case, in the order `/`, `/echo/`, `/user-agent`, `/files` with a directory, fallback, whose condition holds |
| Router.EchoHandler | app/server.go:148-161 | the echo case sets its fields as EchoResponse says |
| Router.UserAgentHandler | app/server.go:162-168 | the user-agent case sets its fields as UserAgentResponse says |
| Router.StoreAfter | app/server.go:145-173 | no ensures of its own; OnlyPostStores, UnknownPathIs404 and PostDecision state that only a POST to the file case changes the files |
| Router.EmittedAsWritten | app/server.go:145-173 | what the switch puts on the connection as written, and whether the handler finishes; no ensures of its own; FileRepliesNeverSent, FileErrorsPanic and StreamedSmallIsDelivered state it |
| Router.DeliveredResponse | app/server.go:93-168 | no ensures of its own; DeliveredFraming states that the response carries its body's length |
| Router.Delivered | app/server.go:93-173 | the bytes the corrected server writes; no ensures of its own; Serve, FileRepliesNeverSent, FileErrorsAre404 and StreamedSmallIsDelivered state it |
| Router.HandleRequest | app/server.go:145-173 | the switch ends with `Respond(req)`, including the panicking 404 writes of the file case, and changes the store only as `StoreAfter` says |
| Router.HandleConnection | app/server.go:134-173 | the connection handler ends with `Respond(Parse(raw))`, including the panicking 404 writes of the file case, and changes the store only as `StoreAfter` says |
| Router.RootIsOk | app/server.go:146-147 | the root path answers `HTTP/1.1 200 OK` whatever the headers and the body |
| Router.EchoReply | app/server.go:148-161 | `/echo/<text>` answers with the text, gzip-compressed and marked as such exactly when accept-encoding contains `gzip`, as 200 OK text/plain whose Content-Length is the body length |
| Router.UserAgentReply | app/server.go:162-168 | `/user-agent` answers with the user-agent value (empty when absent), 200 OK text/plain, with its length |
| Router.FilesNeedDirectory | app/server.go:169-172 | without a directory, `/files` paths get the 404 fallback |
| Router.UnknownPathIs404 | app/server.go:171-172 | a path that matches no case gets 404 and stores nothing |
| Router.OnlyPostStores | app/server.go:107-170 | only a POST to the file endpoint changes the stored files |
| Router.FileErrorsPanic | app/server.go:93-131 | as written, a file request in a missing directory, or a read of a missing file, puts no bytes on the connection and the handler never finishes |
| Router.FileErrorsAre404 | app/server.go:93-131 | written to the connection it was meant for, the same request is answered with the 404 literal |
| Router.FileRepliesNeverSent | app/server.go:93-131 | as written, a POST or the read of a stored file produces no bytes at all on the connection, though a response was decided |
| Router.StreamedSmallIsDelivered | app/server.go:161-168 | an echo or user-agent reply shorter than io.Copy's buffer goes out exactly as rendered |
| Router.DeliveredFraming | app/server.go:126-164 | every response that the corrected server writes declares the exact length of its body; for a file reply that is how DeliveredResponse builds it, for a streamed one it is what the handlers set |
| Router.Serve | app/server.go:134-173 | the corrected connection handler writes the literal to the real connection, or the rendering of the decided response, exactly once; it changes the files as StoreAfter says and keeps the directories |

## Left out

- TCP listen and accept, the goroutine per connection, `conn.Read`,
  `conn.Close`, `log`, `fmt.Printf` and `flag` are not modelled. They are I/O,
  concurrency and side effects with no behaviour to state. `HandleConnection`
  starts from the request text, and the directory is a parameter.
- The fixed 1024-byte read buffer and its NUL padding are not modelled: the
  parser takes any string. So the model does not bound the length of an echo
  path or a user-agent value.
- A failed `conn.Read`, which ends the process through `log.Fatalf`, is not
  modelled.
- Write failures on the connection are not modelled; the source ignores them.
- `commpressBody` and `compress/gzip` are not modelled. Compression is a
  parameter `gzip: string -> string`, and nothing is proved about its output.
  The compression error, which the source discards, is not modelled either.
- FileStore: paths are compared as strings. A file system treats `d/./a`,
  `d//a`, `d/x/../a` and `d/a` as one file, and a file name holding `..`
  leaves the directory (app/server.go:105-106). The model captures neither
  the aliasing nor the escape. So PostTouchesOnlyItsPath and PostThenGet
  speak of path strings: a POST to `/files/./a` does overwrite the file a GET
  of `/files/a` reads, which the map does not show.
- `os.Stat`, `os.ReadFile` and `os.WriteFile` are modelled by `FileStore`.
  Only "directory missing" and "file missing" are failure causes. Permission
  errors are not modelled. Neither is a file name naming a sub-directory or
  the directory itself. A failed write is not modelled; the source only logs
  it and answers 201 anyway.
- Parse: requires the request line to contain a space. The source panics on
  `url[1]` otherwise.
- HandleFiles: requires `0 <= Atoi(content-length) <= len(body)` for a POST
  in an existing directory. Outside that range the source panics for a
  negative length or one past the converted slice's capacity. Between the
  body's length and that capacity it stores zero bytes from the spare
  capacity. Neither case is modelled.
- Text.Split: requires a non-empty separator. Go's split of a string into
  its UTF-8 sequences for the empty separator is not modelled; the server
  never uses it.
- Text.Trim: treats the cut set byte by byte, which agrees with Go only for
  an ASCII cut set, as every cut set the server passes is.
- Text.ToLower: models ASCII case mapping only, as the bytes of a request
  are. The Unicode mapping of `strings.ToLower` for non-ASCII text is not
  modelled.
- CopyAsWritten: models io.Copy only for `readBytes == 0`, which is the only
  value the server ever passes. Buffer sizes other than io.Copy's 32 KiB
  appear only as a parameter.
- Response.Read: `cap(buf)` is taken to equal `len(buf)`, the array's length.
  Read and Chunk require `0 <= readBytes <= count`. That is exactly when the
  slices `s[r.readBytes:cap(buf)]` and `s[r.readBytes:]` do not panic
  (app/server.go:51 and 54). The panic path is not modelled. It cannot be
  reached, because app/server.go never assigns `readBytes`, so it stays 0.
- Panicked: the model records that the reply panics and writes nothing. It
  does not model the end of the process that follows, nor that later
  connections are then never served. The empty-directory write at
  app/server.go:96 is modelled but cannot be reached from the switch, which
  calls `handleFiles` only with a directory (app/server.go:169).
- The gzip property that decompressing the echo body gives the path suffix
  is not modelled, because compression is a parameter.

## Findings

| source | as written | input that shows it | evidently intended | confidence | as-written member | corrected member |
|---|---|---|---|---|---|---|
| app/server.go:36-56 | `Read` has a value receiver, so `readBytes` never advances. While the rendering fills the buffer, every call returns `(cap(buf), nil)` and copies the same first bytes. io.Copy then writes those bytes again and again and never sees EOF; it stops only at a failed write, such as the client closing the connection. The defect is latent: the echo and user-agent bodies come from a 1024-byte read (app/server.go:135), and file replies are never written. | any response whose rendering is at least 32768 bytes, io.Copy's buffer size, e.g. a 40000-byte file once file replies are written | Read continues at its cursor, advances it by the count it returns, and reports EOF after the last byte | not executed | Response.CopyAsWrittenStalls | Response.Deliver |
| app/server.go:93-131 | `handleFiles` gets `res` by value and never writes it. After a successful POST or a read of an existing file the connection is closed without a single byte, though 201 or 200 was decided. The POST response would also declare Content-Length 0. | `POST /files/a` with body `x` and `Content-Length: 1` in an existing directory: the file is stored and the client receives nothing | the decided response is written, with Content-Length equal to its body | not executed | Router.FileRepliesNeverSent | Router.Serve |
| app/server.go:93-131 | On its error paths `handleFiles` writes the 404 literal to `req.conn` (app/server.go:96, 101, 123). `req` is the request `parseRequest` returns, which never sets `conn`. So the call is on a nil `net.Conn`: it panics, nothing recovers it, and the server process exits without writing a byte. | start the server with `-directory` naming an existing directory and send `GET /files/missing.txt HTTP/1.1` followed by an empty line: the server dies at line 123; with a directory that does not exist, any `/files` request dies at line 101 | the 404 literal is written to the client's connection | not executed | Router.FileErrorsPanic | Router.FileErrorsAre404 |
