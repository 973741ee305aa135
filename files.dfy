/** The file endpoint of the server (`handleFiles` in app/server.go): POST
    stores the request body under the directory given at start-up, any other
    method reads a stored file back. The file system is a store of paths and
    their contents together with the set of directories that exist. */
module Files {
  import opened Text
  import opened Request
  import opened Response

  datatype Option<T> = None | Some(value: T)

  /** The content type of a file read back. */
  const OctetStream: string := "application/octet-stream"

  /** The part of the file system the handler touches. */
  class FileStore {
    var files: map<string, string>
    var directories: set<string>

    constructor (files: map<string, string>, directories: set<string>)
      ensures this.files == files && this.directories == directories
    {
      this.files := files;
      this.directories := directories;
    }

    /** os.ReadFile: the contents stored at `path`, or an error when there is none. */
    method ReadFile(path: string) returns (data: Option<string>)
      ensures path in files ==> data == Some(files[path])
      ensures path !in files ==> data == None
    {
      if path in files {
        data := Some(files[path]);
      } else {
        data := None;
      }
    }

    /** os.WriteFile: stores `data` at `path`, replacing what was there. */
    method WriteFile(path: string, data: string)
      modifies this
      ensures files == old(files)[path := data]
      ensures directories == old(directories)
    {
      files := files[path := data];
    }
  }

  /** The file name: the text after the first `/files/` of the path, or the
      empty string when the path holds none. */
  function FileName(path: string): string
  {
    Cut(path, "/files/").after
  }

  /** The path the handler reads or writes: the directory, a slash, the file name. */
  function FilePath(dir: string, path: string): string
  {
    dir + "/" + FileName(path)
  }

  /** The content length a POST declares, read with Atoi (0 when it is absent
      or not a number). */
  function DeclaredLength(req: Request): (n: int)
    ensures MinInt <= n <= MaxInt
    ensures "content-length" !in req.headers ==> n == 0
    ensures "content-length" in req.headers && EarlySyntaxError(req.headers["content-length"]) ==> n == 0
  {
    var text := Lookup(req.headers, "content-length");
    if EarlySyntaxError(text) then AtoiSyntax(text); Atoi(text) else Atoi(text)
  }

  /** The directory is given and exists. */
  predicate Configured(dir: string, directories: set<string>)
  {
    dir != "" && dir in directories
  }

  /** What the handler demands of a request it stores: the declared length
      must lie within the body, else slicing the body panics. */
  predicate Admissible(req: Request, dir: string, directories: set<string>)
  {
    Configured(dir, directories) && req.verb == "POST" ==> 0 <= DeclaredLength(req) <= |req.body|
  }

  /** The reply of handleFiles. For an unconfigured or missing directory and a
      missing file the handler writes the literal 404 to `req.conn`, which
      panics. Otherwise the handler only updates its own copy of the
      response, which is never written. */
  function FileReply(res: Response, req: Request, dir: string, files: map<string, string>, directories: set<string>): Reply
    requires Admissible(req, dir, directories)
  {
    if !Configured(dir, directories) then Panicked(NotFoundReply)
    else if req.verb == "POST" then
      Unsent(res.(body := req.body[..DeclaredLength(req)], statusCode := 201, status := "Created"))
    else if FilePath(dir, req.path) !in files then Panicked(NotFoundReply)
    else
      var data := files[FilePath(dir, req.path)];
      Unsent(res.(body := data, statusCode := 200, status := "OK", contentType := OctetStream, contentLength := |data|))
  }

  /** The stored files after handleFiles. */
  function FilesAfter(req: Request, dir: string, files: map<string, string>, directories: set<string>): map<string, string>
    requires Admissible(req, dir, directories)
  {
    if Configured(dir, directories) && req.verb == "POST" then
      files[FilePath(dir, req.path) := req.body[..DeclaredLength(req)]]
    else files
  }

  /** handleFiles: checks the directory, derives the path, then stores the
      truncated body (POST) or reads the file (any other method). */
  method HandleFiles(res: Response, req: Request, dir: string, store: FileStore) returns (reply: Reply)
    requires Admissible(req, dir, store.directories)
    modifies store
    ensures reply == FileReply(res, req, dir, old(store.files), old(store.directories))
    ensures store.files == FilesAfter(req, dir, old(store.files), old(store.directories))
    ensures store.directories == old(store.directories)
  {
    if dir == "" {
      return Panicked(NotFoundReply);
    }
    if dir !in store.directories {
      return Panicked(NotFoundReply);
    }
    var filename := Cut(req.path, "/files/").after;
    var filePath := dir + "/" + filename;
    var r := res;
    if req.verb == "POST" {
      var bodyLength := Atoi(Lookup(req.headers, "content-length"));
      var dat := req.body[..bodyLength];
      store.WriteFile(filePath, dat);
      r := r.(body := dat);
      r := r.(statusCode := 201);
      r := r.(status := "Created");
      reply := Unsent(r);
    } else {
      var dat := store.ReadFile(filePath);
      if dat.None? {
        return Panicked(NotFoundReply);
      }
      r := r.(body := dat.value);
      r := r.(statusCode := 200);
      r := r.(status := "OK");
      r := r.(contentType := OctetStream);
      r := r.(contentLength := |r.body|);
      reply := Unsent(r);
    }
  }

  // ---------------------------------------------------------------------------
  // Lemmas
  // ---------------------------------------------------------------------------

  /** The name after `/files/` is the file name, whatever it holds. */
  lemma FileNameAfterPrefix(name: string)
    ensures FileName("/files/" + name) == name
  {
    var path := "/files/" + name;
    assert OccursAt(path, "/files/", 0) by {
      assert path[..7] == "/files/";
    }
    assert path[7..] == name;
  }

  /** A path without `/files/` names the directory itself: the file name is empty. */
  lemma FileNameWithoutPrefix(dir: string, path: string)
    requires !Contains(path, "/files/")
    ensures FileName(path) == "" && FilePath(dir, path) == dir + "/"
  {
  }

  /** Without a usable directory the handler writes 404 to the nil connection
      of the parsed request, and stores nothing. */
  lemma NotConfiguredPanics(res: Response, req: Request, dir: string, files: map<string, string>, directories: set<string>)
    requires !Configured(dir, directories)
    ensures FileReply(res, req, dir, files, directories) == Panicked(NotFoundReply)
    ensures FilesAfter(req, dir, files, directories) == files
  {
  }

  /** A read of a file that is not stored writes 404 to the nil connection of
      the parsed request, and stores nothing. */
  lemma MissingFilePanics(res: Response, req: Request, dir: string, files: map<string, string>, directories: set<string>)
    requires Configured(dir, directories) && req.verb != "POST" && FilePath(dir, req.path) !in files
    ensures FileReply(res, req, dir, files, directories) == Panicked(NotFoundReply)
    ensures FilesAfter(req, dir, files, directories) == files
  {
  }

  /** A read of a stored file decides 200 OK with the stored bytes as an octet
      stream whose declared length is the length of the body, and stores nothing. */
  lemma ReadFileDecision(res: Response, req: Request, dir: string, files: map<string, string>, directories: set<string>)
    requires Configured(dir, directories) && req.verb != "POST" && FilePath(dir, req.path) in files
    ensures var reply := FileReply(res, req, dir, files, directories);
      reply.Unsent? && reply.res.body == files[FilePath(dir, req.path)] &&
      reply.res.statusCode == 200 && reply.res.status == "OK" &&
      reply.res.contentType == OctetStream && reply.res.contentLength == |reply.res.body|
    ensures FilesAfter(req, dir, files, directories) == files
  {
  }

  /** A POST stores the first `content-length` bytes of the body and decides
      201 Created with those bytes, leaving the declared length and the
      content type of the response as they were. */
  lemma PostDecision(res: Response, req: Request, dir: string, files: map<string, string>, directories: set<string>)
    requires Configured(dir, directories) && req.verb == "POST" && Admissible(req, dir, directories)
    ensures var reply := FileReply(res, req, dir, files, directories);
      reply.Unsent? && reply.res.body == req.body[..DeclaredLength(req)] &&
      reply.res.statusCode == 201 && reply.res.status == "Created" &&
      reply.res.contentLength == res.contentLength && reply.res.contentType == res.contentType
    ensures FilePath(dir, req.path) in FilesAfter(req, dir, files, directories)
    ensures FilesAfter(req, dir, files, directories)[FilePath(dir, req.path)] == req.body[..DeclaredLength(req)]
  {
  }

  /** A POST changes no path but its own. */
  lemma PostTouchesOnlyItsPath(req: Request, dir: string, files: map<string, string>, directories: set<string>, other: string)
    requires Admissible(req, dir, directories) && other != FilePath(dir, req.path)
    ensures other in FilesAfter(req, dir, files, directories) <==> other in files
    ensures other in files ==> FilesAfter(req, dir, files, directories)[other] == files[other]
  {
  }

  /** A POST followed by a GET of the same file name reads back the bytes the
      POST stored. */
  lemma PostThenGet(post: Request, get: Request, res: Response, dir: string, files: map<string, string>, directories: set<string>)
    requires Configured(dir, directories)
    requires post.verb == "POST" && Admissible(post, dir, directories)
    requires get.verb != "POST" && FileName(get.path) == FileName(post.path)
    ensures var reply := FileReply(res, get, dir, FilesAfter(post, dir, files, directories), directories);
      reply.Unsent? && reply.res.body == post.body[..DeclaredLength(post)] && reply.res.statusCode == 200
  {
    assert FilePath(dir, get.path) == FilePath(dir, post.path);
  }

  /** The same, through the store: HandleFiles on a POST and then on a GET of
      the same file name answers with the stored bytes. */
  method PostThenGetOnStore(post: Request, get: Request, dir: string, store: FileStore) returns (reply: Reply)
    requires Configured(dir, store.directories)
    requires post.verb == "POST" && Admissible(post, dir, store.directories)
    requires get.verb != "POST" && FileName(get.path) == FileName(post.path)
    modifies store
    ensures reply.Unsent? && reply.res.body == post.body[..DeclaredLength(post)]
    ensures reply.res.contentLength == |reply.res.body|
    ensures store.files == old(store.files)[FilePath(dir, post.path) := post.body[..DeclaredLength(post)]]
    ensures store.directories == old(store.directories)
  {
    var posted := HandleFiles(Empty, post, dir, store);
    reply := HandleFiles(Empty, get, dir, store);
    assert FilePath(dir, get.path) == FilePath(dir, post.path);
  }
}
