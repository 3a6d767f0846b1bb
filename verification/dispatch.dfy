/** The request handlers of server.mjs and server.js: resolve the URL, look
    up the content type, open the file as a stream, and let the stream's
    'open', 'end' and 'error' callbacks drive the response. The handler's
    own `statusCode` variable (printed when the response finishes) is kept
    apart from the status line actually sent, because Node fixes the status
    line when the head is written: a stream that fails after opening is
    logged as 404 but was sent as 200. server.mjs additionally answers
    "/app" with an assembled page: that request never reaches the resolver
    or the content stream, and reads only the page templates. */
module Dispatch {
  import opened Optional
  import opened Resolver
  import opened Mime
  import opened PosixPath
  import opened DirectoryIndex
  import Doc

  const NotFoundBody := "Resource Not Found"

  /** `HEADERS`: the fixed security headers. */
  function SecurityHeaders(): (r: map<string, string>)
  {
    map[
      "Access-Control-Allow-Origin" := "*",
      "X-Frame-Options" := "DENY",
      "X-Content-Type-Options" := "nosniff",
      "Referrer-Policy" := "strict-origin-when-cross-origin",
      "Strict-Transport-Security" := "max-age=63072000; includeSubDomains; preload"
    ]
  }

  /** `Object.assign({}, HEADERS, {'Content-Type': mimeType})`. */
  function SuccessHeaders(mimeType: string): (r: map<string, string>)
  {
    SecurityHeaders()["Content-Type" := mimeType]
  }

  /** What the read stream reports: 'open', a piped chunk, 'end', 'error'. */
  datatype StreamEvent = Opened | Data(chunk: string) | Ended | Errored

  /** The status line and headers, once written. */
  datatype Head = Head(status: int, headers: map<string, string>)

  /** The handler's `statusCode`, the response's `statusCode` property, the
      head once it is fixed, the body written so far, and whether the
      response has ended. */
  datatype Exchange = Exchange(
    statusCode: int,
    responseStatus: int,
    head: Option<Head>,
    body: seq<string>,
    finished: bool)

  /** Before any callback: both status values are 200, nothing is written. */
  function Start(): (r: Exchange)
  {
    Exchange(200, 200, None, [], false)
  }

  /** The first write or end fixes an implicit head: the response's current
      status and no headers. */
  function Flush(x: Exchange): (r: Exchange)
  {
    if x.head.None? then x.(head := Some(Head(x.responseStatus, map[]))) else x
  }

  /** `response.write(chunk)`; nothing is written after the end. */
  function Write(x: Exchange, chunk: string): (r: Exchange)
  {
    if x.finished then x else Flush(x).(body := x.body + [chunk])
  }

  /** `response.end()`. */
  function End(x: Exchange): (r: Exchange)
  {
    if x.finished then x else Flush(x).(finished := true)
  }

  /** One stream callback. */
  function OnEvent(x: Exchange, mimeType: string, e: StreamEvent): (r: Exchange)
  {
    match e
    case Opened =>
      // writeHead(statusCode, ...) once, before anything was written
      if x.head.None? && !x.finished then x.(head := Some(Head(x.statusCode, SuccessHeaders(mimeType)))) else x
    case Data(chunk) => Write(x, chunk)
    case Ended => End(x)
    case Errored =>
      var y := x.(statusCode := 404, responseStatus := 404);
      End(Write(y, NotFoundBody))
  }

  /** The callbacks, in the order the stream fires them. */
  function Run(x: Exchange, mimeType: string, events: seq<StreamEvent>): (r: Exchange)
    decreases |events|
  {
    if events == [] then x else Run(OnEvent(x, mimeType, events[0]), mimeType, events[1..])
  }

  /** How reading the resolved file goes: it cannot be opened; it is read to
      the end in chunks; or it opens and then fails part-way (a directory,
      for instance, opens and then fails to read). */
  datatype StreamOutcome = Missing | Delivered(chunks: seq<string>) | Broken(chunks: seq<string>)

  function DataEvents(chunks: seq<string>): (r: seq<StreamEvent>)
    ensures |r| == |chunks|
    ensures forall i :: 0 <= i < |chunks| ==> r[i] == Data(chunks[i])
  {
    seq(|chunks|, i requires 0 <= i < |chunks| => Data(chunks[i]))
  }

  /** The callbacks each outcome fires. */
  function Events(o: StreamOutcome): (r: seq<StreamEvent>)
  {
    match o
    case Missing => [Errored]
    case Delivered(chunks) => [Opened] + DataEvents(chunks) + [Ended]
    case Broken(chunks) => [Opened] + DataEvents(chunks) + [Errored]
  }

  lemma {:induction false} RunAppend(x: Exchange, mimeType: string, a: seq<StreamEvent>, b: seq<StreamEvent>)
    ensures Run(x, mimeType, a + b) == Run(Run(x, mimeType, a), mimeType, b)
    decreases |a|
  {
    if a == [] {
      assert a + b == b;
    } else {
      assert (a + b)[0] == a[0];
      assert (a + b)[1..] == a[1..] + b;
      RunAppend(OnEvent(x, mimeType, a[0]), mimeType, a[1..], b);
      assert Run(x, mimeType, a + b) == Run(OnEvent(x, mimeType, a[0]), mimeType, a[1..] + b);
    }
  }

  /** Piped chunks after the head is written are appended to the body in
      order, and change nothing else. */
  lemma {:induction false} RunData(x: Exchange, mimeType: string, chunks: seq<string>)
    requires x.head.Some? && !x.finished
    ensures Run(x, mimeType, DataEvents(chunks)) == x.(body := x.body + chunks)
    decreases |chunks|
  {
    var events := DataEvents(chunks);
    if chunks == [] {
      assert events == [];
      assert x.body + chunks == x.body;
    } else {
      assert events[0] == Data(chunks[0]);
      var y := OnEvent(x, mimeType, events[0]);
      assert y == x.(body := x.body + [chunks[0]]);
      assert events[1..] == DataEvents(chunks[1..]);
      RunData(y, mimeType, chunks[1..]);
      assert x.body + [chunks[0]] + chunks[1..] == x.body + chunks;
    }
  }

  /** The response each stream outcome produces. The handler logs 404
      exactly when the stream errored, and then the body ends with
      "Resource Not Found". The security headers and the content type are
      sent exactly when the file opened; an error before opening sends a
      bare 404; an error after opening leaves the 200 head in place. The
      response always ends. */
  lemma Respond(o: StreamOutcome, mimeType: string)
    ensures var x := Run(Start(), mimeType, Events(o));
      && x.finished
      && x.statusCode == (if o.Delivered? then 200 else 404)
      && x.head == Some(if o.Missing? then Head(404, map[]) else Head(200, SuccessHeaders(mimeType)))
      && x.body == (if o.Missing? then [] else o.chunks) + (if o.Delivered? then [] else [NotFoundBody])
  {
    match o
    case Missing =>
    case Delivered(chunks) => RespondDelivered(chunks, mimeType);
    case Broken(chunks) => RespondBroken(chunks, mimeType);
  }

  /** The head 'open' writes, before any chunk. */
  lemma OpenedHead(mimeType: string)
    ensures OnEvent(Start(), mimeType, Opened)
            == Exchange(200, 200, Some(Head(200, SuccessHeaders(mimeType))), [], false)
  {
  }

  lemma RespondDelivered(chunks: seq<string>, mimeType: string)
    ensures Run(Start(), mimeType, Events(Delivered(chunks)))
            == Exchange(200, 200, Some(Head(200, SuccessHeaders(mimeType))), chunks, true)
  {
    var afterOpen := OnEvent(Start(), mimeType, Opened);
    OpenedHead(mimeType);
    RunAppend(Start(), mimeType, [Opened] + DataEvents(chunks), [Ended]);
    RunAppend(Start(), mimeType, [Opened], DataEvents(chunks));
    RunData(afterOpen, mimeType, chunks);
    assert [] + chunks == chunks;
  }

  lemma RespondBroken(chunks: seq<string>, mimeType: string)
    ensures Run(Start(), mimeType, Events(Broken(chunks)))
            == Exchange(404, 404, Some(Head(200, SuccessHeaders(mimeType))), chunks + [NotFoundBody], true)
  {
    var afterOpen := OnEvent(Start(), mimeType, Opened);
    OpenedHead(mimeType);
    RunAppend(Start(), mimeType, [Opened] + DataEvents(chunks), [Errored]);
    RunAppend(Start(), mimeType, [Opened], DataEvents(chunks));
    RunData(afterOpen, mimeType, chunks);
    assert [] + chunks == chunks;
  }

  // ---------------------------------------------------------------------
  // The handlers.

  /** What a request gets: a finished response (the status the handler
      logs, the status line sent, the headers, the body) or none at all. */
  datatype Answer =
    | Answered(logged: int, status: int, headers: map<string, string>, body: seq<string>)
    | Unanswered

  function Conclude(x: Exchange): (r: Answer)
  {
    if x.finished && x.head.Some? then Answered(x.statusCode, x.head.value.status, x.head.value.headers, x.body)
    else Unanswered
  }

  /** server.js's handler: resolve with `pathBuilder`, look up the MIME type,
      and serve what the stream `open(path)` does. Every request is answered:
      200 with the security headers and the file's type exactly when the
      resolved file streams to its end, and otherwise a logged 404 whose
      body ends with "Resource Not Found", bare when the file never opened
      and under the 200 head when it failed after opening. */
  method HandleJs(rootPath: string, directories: seq<string>, open: string -> StreamOutcome, url: string)
    returns (a: Answer)
    ensures var t := FileNameBuilder(rootPath, url, directories);
      var o := open(t.path);
      && a.Answered?
      && (a.logged == 200 <==> o.Delivered?)
      && (a.logged == 404 <==> !o.Delivered?)
      && (o.Delivered? ==> a == Answered(200, 200, SuccessHeaders(MimeType(t.ext)), o.chunks))
      && (o.Missing? ==> a == Answered(404, 404, map[], [NotFoundBody]))
      && (o.Broken? ==> a == Answered(404, 200, SuccessHeaders(MimeType(t.ext)), o.chunks + [NotFoundBody]))
  {
    var file := PathBuilder(rootPath, url, directories);
    var mimeType := MimeType(file.ext);
    a := Conclude(Run(Start(), mimeType, Events(open(file.path))));
    AnswerFor(open(file.path), mimeType);
  }

  /** server.mjs's handler for every URL except "/app". */
  function ServeFile(rootPath: string, directories: seq<string>, open: string -> StreamOutcome, url: string): (r: Answer)
  {
    var file := FileNameBuilder(rootPath, url, directories);
    Conclude(Run(Start(), MimeType(file.ext), Events(open(file.path))))
  }

  /** What assembling the "/app" page needs: the template reader, the
      fragment parser, the serializer and the elapsed milliseconds. */
  datatype PageMaker = PageMaker(
    read: string -> Option<string>,
    parse: string -> seq<Doc.Node>,
    serialize: Doc.Document -> string,
    elapsed: int)

  /** The options server.mjs builds the "/app" page with. */
  function AppOptions(): (r: map<string, string>)
  {
    map["main" := "app"]
  }

  /** server.mjs's handler. "/app" is answered with the serialized result of
      `new Doc({'main': 'app'}).build()`: status 200, no headers set. When
      the build rejects, nothing handles the rejection: no response is
      written, and a Node.js runtime that ends the process on an unhandled
      rejection stops the server; `Unanswered` stands for both. */
  function HandleMjs(rootPath: string, directories: seq<string>, open: string -> StreamOutcome,
                     maker: PageMaker, url: string): (r: Answer)
  {
    if url == "/app" then AppAnswer(maker) else ServeFile(rootPath, directories, open, url)
  }

  /** The answer to "/app": the serialized page written and ended, or none
      when the build rejects (an unhandled rejection, see `HandleMjs`). */
  function AppAnswer(maker: PageMaker): (r: Answer)
  {
    match Doc.Build(AppOptions(), maker.read, maker.parse, maker.elapsed)
    case Some(page) => Conclude(End(Write(Start(), maker.serialize(page))))
    case None => Unanswered
  }

  /** Writing a body and ending, with no head set: status 200, no headers. */
  lemma PageAnswer(text: string)
    ensures Conclude(End(Write(Start(), text))) == Answered(200, 200, map[], [text])
  {
  }

  /** "/app" never reaches the resolver or the content stream, and reads
      only the page templates: the answer is the same whatever the root, the
      directory list and the stream outcomes are. It is the
      assembled page with status 200 and no headers, and there is no answer
      at all exactly when one of the six template reads fails. */
  lemma AppBypassesFiles(root1: string, dirs1: seq<string>, open1: string -> StreamOutcome,
                         root2: string, dirs2: seq<string>, open2: string -> StreamOutcome,
                         maker: PageMaker)
    ensures HandleMjs(root1, dirs1, open1, maker, "/app") == HandleMjs(root2, dirs2, open2, maker, "/app")
    ensures var page := Doc.Build(AppOptions(), maker.read, maker.parse, maker.elapsed);
      HandleMjs(root1, dirs1, open1, maker, "/app")
      == (if page.Some? then Answered(200, 200, map[], [maker.serialize(page.value)]) else Unanswered)
    ensures HandleMjs(root1, dirs1, open1, maker, "/app").Unanswered?
            <==> exists i :: 0 <= i < 6 && maker.read(Doc.TemplatePaths(AppOptions())[i]).None?
  {
    var page := Doc.Build(AppOptions(), maker.read, maker.parse, maker.elapsed);
    if page.Some? {
      PageAnswer(maker.serialize(page.value));
    }
    Doc.BuildAllOrNothing(AppOptions(), maker.read, maker.parse, maker.elapsed);
  }

  /** The "/app" page takes its main fragment from templates/main/app.html
      and every other slot from its default template. */
  lemma AppTemplates()
    ensures Doc.TemplatePaths(AppOptions()) == [
      Doc.TemplatePath("head", "default"), Doc.TemplatePath("header", "default"),
      Doc.TemplatePath("nav", "default"), Doc.TemplatePath("aside", "default"),
      Doc.TemplatePath("main", "app"), Doc.TemplatePath("footer", "default")]
  {
    var o := AppOptions();
    assert "head" !in o && "header" !in o && "nav" !in o && "aside" !in o && "footer" !in o;
    var p := Doc.TemplatePaths(o);
    assert p == [p[0], p[1], p[2], p[3], p[4], p[5]];
  }

  /** On every other URL the two servers answer alike. */
  method HandlersAgree(rootPath: string, directories: seq<string>, open: string -> StreamOutcome,
                       maker: PageMaker, url: string)
    returns (js: Answer, mjs: Answer)
    requires url != "/app"
    ensures mjs == HandleMjs(rootPath, directories, open, maker, url)
    ensures js == mjs
  {
    js := HandleJs(rootPath, directories, open, url);
    mjs := HandleMjs(rootPath, directories, open, maker, url);
    var t := FileNameBuilder(rootPath, url, directories);
    AnswerFor(open(t.path), MimeType(t.ext));
  }

  /** server.js has no "/app" route: the URL is resolved like any other, to
      ROOT_PATH/app.html when "/app" is no listed directory. */
  lemma JsServesAppAsFile(root: seq<string>, directories: seq<string>)
    requires root != [] && AllNames(root) && "/app" !in directories
    ensures FileNameBuilder(Render(root), "/app", directories)
            == Target("html", Render(root + ["app"]) + ".html")
  {
    assert Render(["app"]) == "/app";
    assert '.' !in "app";
    ExtensionlessRequest(root, ["app"], directories);
  }

  /** The answer to a file request, by stream outcome: 200 with the
      security headers and the file's type when the file streams to its end;
      404 logged, with "Resource Not Found" closing the body, whenever the
      stream errors, sent as a bare 404 when the file never opened and under
      the 200 head already written when it failed after opening. */
  lemma AnswerFor(o: StreamOutcome, mimeType: string)
    ensures var a := Conclude(Run(Start(), mimeType, Events(o)));
      && a.Answered?
      && (a.logged == 404 <==> !o.Delivered?)
      && (a.logged == 200 <==> o.Delivered?)
      && (o.Delivered? ==> a == Answered(200, 200, SuccessHeaders(mimeType), o.chunks))
      && (o.Missing? ==> a == Answered(404, 404, map[], [NotFoundBody]))
      && (o.Broken? ==> a == Answered(404, 200, SuccessHeaders(mimeType), o.chunks + [NotFoundBody]))
  {
    Respond(o, mimeType);
  }

  /** A request for a file that does not exist is answered 404 with the body
      "Resource Not Found" and none of the security headers. */
  lemma MissingFileIsNotFound(rootPath: string, directories: seq<string>, open: string -> StreamOutcome, url: string)
    ensures open(FileNameBuilder(rootPath, url, directories).path).Missing? ==>
      ServeFile(rootPath, directories, open, url) == Answered(404, 404, map[], [NotFoundBody])
  {
    var t := FileNameBuilder(rootPath, url, directories);
    AnswerFor(open(t.path), MimeType(t.ext));
  }

  /** The site root: with DIRECTORIES computed from the content tree, "/"
      is served ROOT_PATH/index.html as HTML, with the security headers. */
  lemma ServesRootPage(root: seq<string>, entries: seq<Entry>, open: string -> StreamOutcome)
    requires root != [] && AllNames(root) && WellFormed(entries)
    requires open(Render(root) + "/index.html").Delivered?
    ensures ServeFile(Render(root), HostedDirectories(Render(root), entries), open, "/")
            == Answered(200, 200, SuccessHeaders(HtmlType), open(Render(root) + "/index.html").chunks)
  {
    var hosted := HostedDirectories(Render(root), entries);
    HostedDirectoriesExact(root, entries);
    assert "/" in hosted;
    RootRequest(root, hosted);
    HtmlTypes();
    AnswerFor(open(Render(root) + "/index.html"), HtmlType);
  }
}
