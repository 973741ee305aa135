/** The connection handler of the server (`handleConnection` in
    app/server.go): parses the request, picks the first case of its switch
    whose condition holds, and answers from that case's handler. */
module Router {
  import opened Text
  import opened Request
  import opened Response
  import opened Files

  /** The cases of the switch. */
  datatype Route = Root | Echo | UserAgent | FileRoute | Fallback

  /** The order in which the switch tries its cases. */
  const Order: seq<Route> := [Root, Echo, UserAgent, FileRoute, Fallback]

  /** The condition of each case on the path and the configured directory. */
  predicate Guard(route: Route, path: string, dir: string)
  {
    match route
    case Root => path == "/"
    case Echo => HasPrefix(path, "/echo/")
    case UserAgent => HasPrefix(path, "/user-agent")
    case FileRoute => HasPrefix(path, "/files") && dir != ""
    case Fallback => true
  }

  /** The first of `routes` whose condition holds, or the fallback. */
  function FirstMatch(routes: seq<Route>, path: string, dir: string): Route
  {
    if routes == [] then Fallback
    else if Guard(routes[0], path, dir) then routes[0]
    else FirstMatch(routes[1..], path, dir)
  }

  /** The case the switch takes. */
  function Dispatch(path: string, dir: string): (route: Route)
    ensures Guard(route, path, dir)
  {
    if path == "/" then Root
    else if HasPrefix(path, "/echo/") then Echo
    else if HasPrefix(path, "/user-agent") then UserAgent
    else if HasPrefix(path, "/files") && dir != "" then FileRoute
    else Fallback
  }

  /** The client takes gzip: its accept-encoding value contains `gzip`. */
  predicate AcceptsGzip(req: Request)
  {
    Contains(Lookup(req.headers, "accept-encoding"), "gzip")
  }

  /** The response of the echo case: the path after `/echo/`, compressed when
      the client takes gzip, as 200 OK text/plain with its length. */
  function EchoResponse(res: Response, req: Request, gzip: string -> string): Response
  {
    var body := CutPrefix(req.path, "/echo/");
    var r := if AcceptsGzip(req) then res.(contentEncoding := "gzip", body := gzip(body)) else res.(body := body);
    r.(status := "OK", statusCode := 200, contentType := "text/plain", contentLength := |r.body|)
  }

  /** The response of the user-agent case: the user-agent header value as
      200 OK text/plain with its length. */
  function UserAgentResponse(res: Response, req: Request): Response
  {
    var body := Lookup(req.headers, "user-agent");
    res.(body := body, contentLength := |body|, status := "OK", statusCode := 200, contentType := "text/plain")
  }

  /** The echo case, field by field. */
  method EchoHandler(res: Response, req: Request, gzip: string -> string) returns (r: Response)
    ensures r == EchoResponse(res, req, gzip)
  {
    r := res;
    var body := CutPrefix(req.path, "/echo/");
    if Contains(Lookup(req.headers, "accept-encoding"), "gzip") {
      r := r.(contentEncoding := "gzip");
      var cbody := gzip(body);
      r := r.(body := cbody);
    } else {
      r := r.(body := body);
    }
    r := r.(status := "OK");
    r := r.(statusCode := 200);
    r := r.(contentType := "text/plain");
    r := r.(contentLength := |r.body|);
  }

  /** The user-agent case, field by field. */
  method UserAgentHandler(res: Response, req: Request) returns (r: Response)
    ensures r == UserAgentResponse(res, req)
  {
    r := res;
    r := r.(body := Lookup(req.headers, "user-agent"));
    r := r.(contentLength := |r.body|);
    r := r.(status := "OK");
    r := r.(statusCode := 200);
    r := r.(contentType := "text/plain");
  }

  /** What the server needs of a request: a request line with a target, and a
      declared length within the body when the request is stored. */
  predicate Serviceable(req: Request, dir: string, directories: set<string>)
  {
    Dispatch(req.path, dir) == FileRoute ==> Admissible(req, dir, directories)
  }

  /** The reply of handleConnection to a parsed request. */
  function Respond(req: Request, dir: string, files: map<string, string>, directories: set<string>, gzip: string -> string): (reply: Reply)
    requires Serviceable(req, dir, directories)
    ensures reply.Written? ==> reply.text == OkReply || reply.text == NotFoundReply
    ensures reply.Written? && reply.text == OkReply <==> req.path == "/"
    ensures reply.Written? ==> Dispatch(req.path, dir) != FileRoute
    ensures reply.Streamed? <==> Dispatch(req.path, dir) == Echo || Dispatch(req.path, dir) == UserAgent
    ensures reply.Unsent? ==> Dispatch(req.path, dir) == FileRoute
    ensures reply.Panicked? ==> Dispatch(req.path, dir) == FileRoute && reply.text == NotFoundReply
  {
    match Dispatch(req.path, dir)
    case Root => Written(OkReply)
    case Echo => Streamed(EchoResponse(Empty, req, gzip))
    case UserAgent => Streamed(UserAgentResponse(Empty, req))
    case FileRoute => FileReply(Empty, req, dir, files, directories)
    case Fallback => Written(NotFoundReply)
  }

  /** The stored files after handleConnection. */
  function StoreAfter(req: Request, dir: string, files: map<string, string>, directories: set<string>): map<string, string>
    requires Serviceable(req, dir, directories)
  {
    if Dispatch(req.path, dir) == FileRoute then FilesAfter(req, dir, files, directories) else files
  }

  /** The switch of handleConnection on a parsed request. */
  method HandleRequest(req: Request, dir: string, store: FileStore, gzip: string -> string) returns (reply: Reply)
    requires Serviceable(req, dir, store.directories)
    modifies store
    ensures reply == Respond(req, dir, old(store.files), old(store.directories), gzip)
    ensures store.files == StoreAfter(req, dir, old(store.files), old(store.directories))
    ensures store.directories == old(store.directories)
  {
    var res := Empty;
    if req.path == "/" {
      reply := Written(OkReply);
    } else if HasPrefix(req.path, "/echo/") {
      res := EchoHandler(res, req, gzip);
      reply := Streamed(res);
    } else if HasPrefix(req.path, "/user-agent") {
      res := UserAgentHandler(res, req);
      reply := Streamed(res);
    } else if HasPrefix(req.path, "/files") && dir != "" {
      reply := HandleFiles(res, req, dir, store);
    } else {
      reply := Written(NotFoundReply);
    }
  }

  /** handleConnection, from the request text on: parse, then the switch. */
  method HandleConnection(raw: string, dir: string, store: FileStore, gzip: string -> string) returns (reply: Reply)
    requires HasTarget(raw) && Serviceable(Parse(raw), dir, store.directories)
    modifies store
    ensures reply == Respond(Parse(raw), dir, old(store.files), old(store.directories), gzip)
    ensures store.files == StoreAfter(Parse(raw), dir, old(store.files), old(store.directories))
    ensures store.directories == old(store.directories)
  {
    var req := ParseRequest(raw);
    reply := HandleRequest(req, dir, store, gzip);
  }

  // ---------------------------------------------------------------------------
  // What reaches the connection
  // ---------------------------------------------------------------------------

  /** The bytes written to the connection as the server stands, after `calls`
      calls of Read when the reply is streamed, and whether the handler got to
      its end: a literal goes out whole, a streamed response through the
      value-receiver Read, and an unsent response not at all. A write on the
      nil connection puts out nothing and never finishes: the panic ends the
      process. */
  function EmittedAsWritten(reply: Reply, calls: nat): Copied
    requires reply.Streamed? ==> reply.res.readBytes == 0
  {
    match reply
    case Written(text) => Copied(text, true)
    case Streamed(res) => CopyAsWritten(res, CopyBufferSize, calls)
    case Unsent(_) => Copied("", true)
    case Panicked(_) => Copied("", false)
  }

  /** The response the connection should carry for a decided reply: a streamed
      one as it is, an unsent one with its declared length set to its body. */
  function DeliveredResponse(reply: Reply): Response
    requires reply.Streamed? || reply.Unsent?
  {
    match reply
    case Streamed(res) => res
    case Unsent(res) => res.(contentLength := |res.body|)
  }

  /** The bytes the connection should carry: every decided response is
      written, and a literal meant for the connection reaches it. */
  function Delivered(reply: Reply): string
  {
    if reply.Written? || reply.Panicked? then reply.text else Serialize(DeliveredResponse(reply))
  }

  /** The connection handler with every decided response written through a
      reader whose cursor moves. */
  method Serve(raw: string, dir: string, store: FileStore, gzip: string -> string) returns (wire: string)
    requires HasTarget(raw) && Serviceable(Parse(raw), dir, store.directories)
    modifies store
    ensures wire == Delivered(Respond(Parse(raw), dir, old(store.files), old(store.directories), gzip))
    ensures store.files == StoreAfter(Parse(raw), dir, old(store.files), old(store.directories))
    ensures store.directories == old(store.directories)
  {
    var reply := HandleConnection(raw, dir, store, gzip);
    if reply.Written? || reply.Panicked? {
      wire := reply.text;
    } else {
      wire := Deliver(DeliveredResponse(reply), CopyBufferSize);
    }
  }

  // ---------------------------------------------------------------------------
  // Lemmas
  // ---------------------------------------------------------------------------

  /** The switch takes the first case, in order, whose condition holds. */
  lemma DispatchFirstMatch(path: string, dir: string)
    ensures Dispatch(path, dir) == FirstMatch(Order, path, dir)
    ensures Guard(Dispatch(path, dir), path, dir)
  {
    var last := [Fallback];
    var files := [FileRoute] + last;
    var agent := [UserAgent] + files;
    var echo := [Echo] + agent;
    assert Order == [Root] + echo;
    assert FirstMatch(last, path, dir) == Fallback by {
      assert last[1..] == [];
    }
    assert FirstMatch(files, path, dir) == if Guard(FileRoute, path, dir) then FileRoute else Fallback by {
      assert files[1..] == last;
    }
    assert FirstMatch(agent, path, dir) == if Guard(UserAgent, path, dir) then UserAgent else FirstMatch(files, path, dir) by {
      assert agent[1..] == files;
    }
    assert FirstMatch(echo, path, dir) == if Guard(Echo, path, dir) then Echo else FirstMatch(agent, path, dir) by {
      assert echo[1..] == agent;
    }
    assert ([Root] + echo)[1..] == echo;
  }

  /** The root path answers 200 OK whatever the headers and the body. */
  lemma RootIsOk(req: Request, dir: string, files: map<string, string>, directories: set<string>, gzip: string -> string)
    requires req.path == "/"
    ensures Serviceable(req, dir, directories)
    ensures Respond(req, dir, files, directories, gzip) == Written(OkReply)
  {
  }

  /** The echo case answers with the text after `/echo/`, compressed exactly
      when the client takes gzip, as 200 OK text/plain with its length. */
  lemma EchoReply(req: Request, dir: string, files: map<string, string>, directories: set<string>, gzip: string -> string, text: string)
    requires req.path == "/echo/" + text
    ensures Serviceable(req, dir, directories)
    ensures var reply := Respond(req, dir, files, directories, gzip);
      reply.Streamed? &&
      reply.res.body == (if AcceptsGzip(req) then gzip(text) else text) &&
      reply.res.contentEncoding == (if AcceptsGzip(req) then "gzip" else "") &&
      reply.res.statusCode == 200 && reply.res.status == "OK" && reply.res.contentType == "text/plain" &&
      reply.res.contentLength == |reply.res.body|
  {
    assert HasPrefix(req.path, "/echo/") by {
      assert req.path[..6] == "/echo/";
    }
    assert req.path != "/" by {
      assert |req.path| >= 6;
    }
    assert CutPrefix(req.path, "/echo/") == text by {
      assert "/echo/" + text == req.path;
    }
  }

  /** The user-agent case answers with the user-agent header value, empty when
      there is none, as 200 OK text/plain with its length. */
  lemma UserAgentReply(req: Request, dir: string, files: map<string, string>, directories: set<string>, gzip: string -> string)
    requires HasPrefix(req.path, "/user-agent")
    ensures Serviceable(req, dir, directories)
    ensures var reply := Respond(req, dir, files, directories, gzip);
      reply.Streamed? &&
      reply.res.body == Lookup(req.headers, "user-agent") &&
      ("user-agent" !in req.headers ==> reply.res.body == "") &&
      reply.res.contentEncoding == "" &&
      reply.res.statusCode == 200 && reply.res.status == "OK" && reply.res.contentType == "text/plain" &&
      reply.res.contentLength == |reply.res.body|
  {
    assert req.path != "/" && !HasPrefix(req.path, "/echo/") by {
      assert req.path[..11] == "/user-agent";
      assert req.path[1] == 'u';
    }
  }

  /** Without a directory, `/files` paths fall through to 404. */
  lemma FilesNeedDirectory(req: Request, files: map<string, string>, directories: set<string>, gzip: string -> string)
    requires HasPrefix(req.path, "/files")
    ensures Serviceable(req, "", directories)
    ensures Respond(req, "", files, directories, gzip) == Written(NotFoundReply)
  {
    assert req.path != "/" && !HasPrefix(req.path, "/echo/") && !HasPrefix(req.path, "/user-agent") by {
      assert req.path[..6] == "/files";
      assert req.path[1] == 'f';
    }
  }

  /** A path matching no case answers 404. */
  lemma UnknownPathIs404(req: Request, dir: string, files: map<string, string>, directories: set<string>, gzip: string -> string)
    requires req.path != "/" && !HasPrefix(req.path, "/echo/") && !HasPrefix(req.path, "/user-agent")
    requires !HasPrefix(req.path, "/files")
    ensures Serviceable(req, dir, directories)
    ensures Respond(req, dir, files, directories, gzip) == Written(NotFoundReply)
    ensures StoreAfter(req, dir, files, directories) == files
  {
  }

  /** Only a POST to the file endpoint changes the stored files. */
  lemma OnlyPostStores(req: Request, dir: string, files: map<string, string>, directories: set<string>)
    requires Serviceable(req, dir, directories)
    requires req.verb != "POST" || Dispatch(req.path, dir) != FileRoute
    ensures StoreAfter(req, dir, files, directories) == files
  {
  }

  /** As the server stands, a stored file read back or a POST is answered with
      nothing at all: the handler's response never reaches the connection. */
  lemma FileRepliesNeverSent(req: Request, dir: string, files: map<string, string>, directories: set<string>, gzip: string -> string, calls: nat)
    requires Serviceable(req, dir, directories)
    requires Dispatch(req.path, dir) == FileRoute && Configured(dir, directories)
    requires req.verb == "POST" || FilePath(dir, req.path) in files
    ensures EmittedAsWritten(Respond(req, dir, files, directories, gzip), calls) == Copied("", true)
    ensures Delivered(Respond(req, dir, files, directories, gzip)) != ""
  {
  }

  /** As the server stands, a file request in a missing directory, or a read
      of a file that is not stored, writes nothing at all: the handler's 404
      goes to the parsed request's nil connection, and the panic ends the
      process. */
  lemma FileErrorsPanic(req: Request, dir: string, files: map<string, string>, directories: set<string>, gzip: string -> string, calls: nat)
    requires Serviceable(req, dir, directories) && Dispatch(req.path, dir) == FileRoute
    requires !Configured(dir, directories) || (req.verb != "POST" && FilePath(dir, req.path) !in files)
    ensures Respond(req, dir, files, directories, gzip).Panicked?
    ensures EmittedAsWritten(Respond(req, dir, files, directories, gzip), calls) == Copied("", false)
    ensures StoreAfter(req, dir, files, directories) == files
  {
  }

  /** Written to the connection it was meant for, the same request is
      answered with the 404 literal. */
  lemma FileErrorsAre404(req: Request, dir: string, files: map<string, string>, directories: set<string>, gzip: string -> string)
    requires Serviceable(req, dir, directories) && Dispatch(req.path, dir) == FileRoute
    requires !Configured(dir, directories) || (req.verb != "POST" && FilePath(dir, req.path) !in files)
    ensures Delivered(Respond(req, dir, files, directories, gzip)) == NotFoundReply
  {
  }

  /** A streamed reply shorter than io.Copy's buffer goes out as delivered. */
  lemma StreamedSmallIsDelivered(reply: Reply, calls: nat)
    requires reply.Streamed? && reply.res.readBytes == 0
    requires |Serialize(reply.res)| < CopyBufferSize && 0 < calls
    ensures EmittedAsWritten(reply, calls) == Copied(Delivered(reply), true)
  {
    CopyAsWrittenSmall(reply.res, CopyBufferSize, calls);
  }

  /** Every response the connection carries declares the length of its body.
      For a streamed echo or user-agent reply this is what the handlers set;
      for a file reply it holds because DeliveredResponse itself sets the
      length from the body, so only the streamed half says something about
      the switch. */
  lemma DeliveredFraming(req: Request, dir: string, files: map<string, string>, directories: set<string>, gzip: string -> string)
    requires Serviceable(req, dir, directories)
    requires Respond(req, dir, files, directories, gzip).Streamed? || Respond(req, dir, files, directories, gzip).Unsent?
    ensures var res := DeliveredResponse(Respond(req, dir, files, directories, gzip));
      res.contentLength == |res.body| && res.readBytes == 0
  {
  }
}
