# Node Web Server — a Dafny model of request resolution, dispatch and page assembly

This project models the decision logic of a small static file server and its page assembler, and proves properties of that model. The server exists in two variants, `server.mjs` and `server.js`. The page assembler is `doc.mjs`.

At startup the server walks the content root (`ROOT_PATH`) and turns every directory it finds into a "/"-rooted request path; these paths form `DIRECTORIES`. Each request URL is then resolved as follows:

- The URL is joined onto the root.
- An `index` segment is added when the URL equals a `DIRECTORIES` entry.
- `.html` is added when the joined path has no extension.
- The content type is looked up from the lower-cased extension.
- The file is streamed back, or the request gets 404 "Resource Not Found" when the stream errors.

`server.mjs` also answers `/app` with a page assembled from six HTML templates.

Modules, one file each:

- `Segments` (`segments.dfy`): `split('/')` and `join('/')` on strings, plus ASCII lower-casing.
- `PosixPath` (`posix_path.dfy`): Node's POSIX `path.join`, `path.normalize` and `path.extname`, with what they compute on canonical absolute paths (`Render(names)` = "/" followed by the names joined with "/").
- `DirectoryIndex` (`directory_index.dfy`): `getDirectoriesRecursive` over an abstract directory tree, and the relativisation loop that builds `DIRECTORIES`.
- `Resolver` (`resolver.dfy`): `fileNameBuilder`, and `pathBuilder` as a loop method proved equal to it.
- `Mime` (`mime.dfy`): the `MIME_TYPES` table and its lookup with fallback.
- `Dispatch` (`dispatch.dfy`): the stream callbacks as a state machine, the handlers of both servers, and the `/app` bypass.
- `Doc` (`doc.mjs` → `doc.dfy`): `Doc.build` (slot defaulting, template paths, append order, the script element, the `#time` overwrite, all-or-nothing failure) and the constructor's page skeleton.
- `Optional` (`optional.dfy`): the `Option` datatype.

External effects become parameters:

- the directory tree replaces `readdirSync` and `statSync`;
- `open: string -> StreamOutcome` replaces `fs.createReadStream` and its events;
- `read`, `parse` and `serialize` replace `fs.readFile`, `JSDOM.fragment` and `dom.serialize()`;
- `elapsed` replaces `Date.now() - this.start`.

The handler's `statusCode` variable is what the finish log prints. It is kept apart from the status line actually sent. Node fixes the status line when the head is written, so a stream that opens and then fails is logged as 404 but was sent as 200.

Behaviour the model exposes rather than hides:

- `/blog/` (not a listed entry) resolves to `ROOT/blog/.html`, with lookup extension `""` (`Resolver.TrailingSlashRequest`).
- `/../x` resolves to a file outside the content root, because no containment check exists (`Resolver.ClimbLeavesRoot`).
- A listed directory is given `index` even when its name contains a dot, such as `/v1.2`. The directory match is done on the raw URL before any extension test (server.mjs:127-131), and the `.html` test afterwards looks only at the joined path (server.mjs:133-135). So an extension in the URL never skips the directory check.

## Model

| member | source | states |
|---|---|---|
| Segments.JoinSplit | server.mjs:113 | On POSIX, splitting a directory path on the separator and joining it with "/" gives the same string back. |
| Segments.SplitJoin | server.mjs:114 | Splitting on "/" recovers the slash-free pieces that were joined. |
| Segments.SplitSlash | server.mjs:114 | A slash splits a string exactly there: the pieces of `a/b` are those of `a` followed by those of `b`. |
| Segments.SplitLastEmpty | server.mjs:133 | The last piece of a split is empty exactly when the string is empty or ends in "/". |
| Segments.LowerIsLower | server.mjs:136 | Lower-casing leaves no upper-case letter and is idempotent. |
| PosixPath.Join | server.mjs:132 | `path.join` never returns "", and its result is absolute when the first argument is. |
| PosixPath.Reduce | server.mjs:132 | Normalising a segment list keeps segments non-empty and slash-free, and keeps them proper names when the path is absolute. |
| PosixPath.ReducePieces | server.mjs:132 | Normalising plain names just drops the empty ones. |
| PosixPath.JoinUnder | server.mjs:126-132 | Joining the root with a canonical request path gives that path below the root; the request "/" leaves a trailing slash. |
| PosixPath.JoinUnderIndex | server.mjs:126-132 | Joining root, request path and "index" gives the request's `index` below the root. |
| PosixPath.JoinUnderTrailing | server.mjs:132 | A trailing slash on the request survives the join. |
| PosixPath.JoinClimbsAboveRoot | server.mjs:132 | A leading `/..` is resolved lexically against the root's parent. |
| PosixPath.JoinChild | server.mjs:147 | `path.join(srcpath, file)` names the child below the directory. |
| PosixPath.JoinFromSlash | server.mjs:116 | `path.posix.join('/', ...names)` is the canonical absolute path of the names, and "/" for none. |
| PosixPath.Extname | server.mjs:133 | An extension is empty, or a dot followed by text with no further dot and no slash. |
| PosixPath.LastDot | server.mjs:136 | Finds the last dot of a name, or reports that the name has none. |
| PosixPath.ExtnameRender | server.mjs:133 | The extension of a canonical path is that of its last name. |
| PosixPath.ExtnameHtml | server.mjs:133-136 | After appending `.html` the extension is `.html`, unless the path ended in "/", which leaves a dot-file with no extension. |
| DirectoryIndex.Walk | server.mjs:151-153 | The walk lists the source directory first. |
| DirectoryIndex.WalkFromRoot | server.mjs:141-153 | From a canonical root, the walk is the root-relative pre-order walk (each directory before its sub-directories, in listing order), rendered below the root. |
| DirectoryIndex.RelWalkIsDirectories | server.mjs:145-153 | The walk lists a path exactly when it is a directory of the tree; files never appear. |
| DirectoryIndex.RelWalkDistinct | server.mjs:151-153 | No directory is listed twice. |
| DirectoryIndex.WalkListsEachDirectoryOnce | server.js:114-121 | The walk lists the root first, lists every directory of the tree, lists only directories, and lists none twice. |
| DirectoryIndex.Relativise | server.mjs:113-116 | Every relativised entry starts with "/". |
| DirectoryIndex.RelativeDirectories | server.mjs:112-117 | `DIRECTORIES` has one "/"-rooted entry per walked directory, in walk order: entry i is the i-th walked path with the root's segments dropped. |
| DirectoryIndex.RelativiseUnderRoot | server.mjs:112-117 | Dropping `ROOT_PATH_DEPTH` segments maps the root to "/" and `ROOT/a/b` to `/a/b`. |
| DirectoryIndex.HostedAreRelativeWalk | server.js:62-71 | `DIRECTORIES` is the relative walk rendered from "/". |
| DirectoryIndex.HostedDirectoriesExact | server.js:62-71 | `DIRECTORIES` starts with "/", holds exactly the request paths of the tree's directories, and holds each once. |
| Resolver.IndexSegmentsStep | server.mjs:127-131 | Each step of the `DIRECTORIES` loop pushes one `index` segment at the end when the entry equals the URL, and pushes nothing otherwise. |
| Resolver.FileNameBuilder | server.mjs:125-139 | The lookup extension never holds an upper-case letter, a dot or a slash. |
| Resolver.PathBuilder | server.js:73-87 | `pathBuilder` computes the same extension and path as `fileNameBuilder`, for every URL and directory list. |
| Resolver.IndexExactlyWhenListed | server.mjs:126-131 | The path parts are [root, url] exactly when the URL is no entry; with no duplicate entries, one `index` is added exactly when it is an entry. |
| Resolver.HtmlExactlyWhenNoExtension | server.mjs:132-135 | `.html` is appended if and only if the joined path has no extension; otherwise the joined path is used unchanged. |
| Resolver.AppendedHtmlExtension | server.mjs:133-136 | When `.html` was appended, the lookup extension is `html`, except after a trailing slash, where it is empty. |
| Resolver.LookupKey | server.js:84 | The extension without its dot, lower-cased, holds no upper-case letter. |
| Resolver.FileRequest | server.js:80-84 | A request for `.../stem.x` that is no listed directory opens that path below the root, unchanged, and looks up `x` lower-cased, so `B.PNG` and `B.png` look up alike. |
| Resolver.DirectoryRequest | server.js:75-84 | A request naming a listed directory opens that directory's `index.html`, with extension `html`. |
| Resolver.RootRequest | server.mjs:126-136 | With "/" listed, the request "/" opens `ROOT_PATH/index.html` with extension `html`. |
| Resolver.ExtensionlessRequest | server.mjs:132-136 | An unlisted request without an extension opens the path with `.html` appended. |
| Resolver.TrailingSlashRequest | server.mjs:132-136 | An unlisted `/blog/` opens `ROOT/blog/.html` with an empty lookup extension. |
| Resolver.ClimbingRequest | server.mjs:126-134 | A `/..` request is resolved against the root's parent. |
| Resolver.ClimbLeavesRoot | server.mjs:126-134 | `/../n` opens a file that is not below the content root. |
| Resolver.ServesDirectoryIndex | server.mjs:112-136 | With `DIRECTORIES` built from the tree, every directory of the tree is served its `index.html`. |
| Resolver.NotHosted | server.mjs:112-131 | A canonical request path naming no directory of the tree is not in `DIRECTORIES`. |
| Resolver.ServesPageWithoutExtension | server.mjs:127-135 | A request naming no directory and having no extension is served `<root><path>.html`. |
| Mime.MimeType | server.mjs:84 | The lookup is total and never empty: a listed extension gives its table value, and anything else gives `application/octet-stream`. |
| Mime.DefaultEntry | server.mjs:24 | The table's `default` entry is `application/octet-stream`. |
| Mime.HtmlTypes | server.mjs:36-37 | `htm` and `html` both give `text/html; charset=UTF-8`. |
| Mime.CommonTypes | server.js:13-59 | `css`, `png`, `js` and `mjs` give their listed types; the empty extension falls back to `application/octet-stream`. |
| Dispatch.RunData | server.mjs:85 | Chunks piped after the head is written are appended to the body in order, and nothing else changes. |
| Dispatch.Respond | server.mjs:85-97 | The response always ends. The handler logs 404 exactly when the stream errored, and "Resource Not Found" then closes the body. The security headers and the content type are sent exactly when the file opened. An error before opening sends a bare 404; an error after opening keeps the 200 status line. |
| Dispatch.AnswerFor | server.js:91-105 | Status 200 with the security headers and the file's type when the file streams to its end; 404 with "Resource Not Found" whenever the stream errors. |
| Dispatch.HandleJs | server.js:89-105 | Every server.js request is answered. It gets 200 with the security headers and the MIME type of the resolved extension exactly when the resolved file streams to its end. Otherwise the handler logs 404 and the body ends with "Resource Not Found": a bare 404 when the file never opened, and the 200 head plus the chunks already sent when it failed after opening. |
| Dispatch.MissingFileIsNotFound | server.mjs:92-97 | A request whose file cannot be opened gets 404, the body "Resource Not Found", and none of the security headers. |
| Dispatch.ServesRootPage | server.mjs:83-88 | With `DIRECTORIES` built from the tree, "/" is served `ROOT_PATH/index.html` as `text/html; charset=UTF-8` with the security headers. |
| Dispatch.AppBypassesFiles | server.mjs:77-81 | `/app` never reaches the resolver or the content stream; it reads only the page templates. Its answer is the assembled page with status 200 and no headers, and there is no answer exactly when a template read fails. |
| Dispatch.AppTemplates | server.mjs:79 | The `/app` page reads `templates/main/app.html`, and the default template for every other slot. |
| Dispatch.HandlersAgree | server.mjs:82-98 | On every URL except `/app`, server.mjs and server.js give the same answer. |
| Dispatch.JsServesAppAsFile | server.js:90 | server.js has no `/app` route: unless listed, `/app` opens `ROOT_PATH/app.html`. |
| Doc.TemplateName | doc.mjs:21-26 | A slot's template name is the option value, or `default` when the option is absent or empty. |
| Doc.TemplatePathsBySlot | doc.mjs:29-34 | Each slot reads `templates/<slot>/<name>.html`, for head, header, nav, aside, main and footer in that order. |
| Doc.TemplatePathsDistinct | doc.mjs:28-35 | The six reads use six different path strings, whatever the options are. |
| Doc.BuildAllOrNothing | doc.mjs:28-35 | `build` yields a page exactly when all six reads succeed, so a partial page is never produced. |
| Doc.BuildReadsOnlyTemplates | doc.mjs:28-35 | `build` depends on the file system only through the six template files. |
| Doc.BuildLayout | doc.mjs:16-52 | The page keeps `lang="en"` and the `og:` prefix. Only the head fragment goes into `<head>`. The body holds header, nav, aside, main and footer in that order and ends with `<script src="script.js">`. The page equals the assembled one except for the children of the first `#time` element, so a later `#time` element is left as it was. |
| Doc.BuildStampsTime | doc.mjs:53-59 | A page without a `#time` element is returned as assembled; otherwise the first `#time` element then holds only the elapsed-time message. |
| Doc.StampNodesSpec | doc.mjs:56-59 | The overwrite finds an element exactly when `querySelector("#time")` does, changes nothing when there is none, leaves the first match holding only the message, and changes nothing but that one element's children; later `#time` elements are untouched. |
| Doc.StampDocumentSpec | doc.mjs:56-59 | At document level `<head>` is searched before `<body>`; the page is unchanged without a match, and otherwise only the children of the first match change. |
| Doc.FirstTime | doc.mjs:56 | What `querySelector("#time")` returns is always an element whose id is `time`. |
| Doc.NatToString | doc.mjs:55 | The elapsed milliseconds are written as a non-empty string of decimal digits. |
| Doc.NatToStringValue | doc.mjs:54-55 | Reading those digits back gives the elapsed time, so the message states it exactly. |

## Left out

- Process plumbing is not modelled: HTTP server creation, `listen`, the port, the startup `try`/`catch`, and the start-up console messages.
- Console logging and its ANSI colours (server.mjs:99-106, server.js:106-108) are not modelled. Only the status value the finish log prints is kept, as `logged`.
- File-system calls become parameters or data:
  - `readdirSync`/`statSync` are an abstract directory tree (`DirectoryIndex.Entry`);
  - `fs.createReadStream` is the parameter `open`, which gives one of three stream outcomes: never opened, read to the end, or opened and then failed;
  - `fs.readFile` is the parameter `read`.
- Event orders outside those three outcomes are not modelled, such as a second 'open', or an error after 'end' (Node's write-after-end error).
- The `end` that `pipe` itself issues is not modelled separately; it coincides with the 'end' callback's `response.end()`.
- Transport headers Node adds on its own are not modelled: `Date`, `Connection`, and `Content-Length` or chunked encoding.
- Only POSIX paths are modelled: `path.sep` is "/". On Windows the split/join in the relativisation loop would translate separators.
- The walk is proved for canonical roots (absolute and normalised, as `path.join(DIR_NAME, './public')` yields) and for trees whose listings hold valid, distinct names, as real directories do.
- Resolver.LookupKey: `toLowerCase` is modelled on ASCII letters only; other Unicode case mappings are not.
- Mime.MimeType: the table is a plain finite table. Keys inherited from `Object.prototype` (an extension such as `constructor`) are not modelled. The `|| MIME_TYPES.default` fallback for a falsy listed value is modelled, though no listed value is falsy.
- Doc.TemplatePathsDistinct: promises six different path strings, not six different files. Option values are used unchecked, so `head` set to `../header/default` reads `templates/header/default.html` twice, once for each of two slots.
- Doc.TemplateName: options are modelled as a string-to-string map. Non-string option values (numbers, objects) and their string conversion are not modelled.
- JSDOM is a parameter:
  - parsing (`JSDOM.fragment`) and serialisation (`dom.serialize()`) are not modelled;
  - the document is the `<html>` element's two attributes plus the child lists of `<head>` and `<body>`;
  - `<html>`, `<head>` and `<body>` themselves carry no `id`, so `querySelector` starts in `<head>`.
- Why `Promise.all` rejects is not modelled. A failed build is `None`, and a failed `/app` build is `Unanswered`.
- Dispatch.HandleMjs: a failed `/app` build is not modelled as a process failure. The rejection at server.mjs:79 is unhandled, so no response is written. On Node.js 15 and later an unhandled rejection also ends the process, which stops the server for every later request. `Unanswered` covers only the request itself.
- DirectoryIndex.Walk: startup failures of the walk are not modelled. `readdirSync` and `statSync` throw on an unreadable directory or a dangling symbolic link, and that aborts startup (server.mjs:73, server.js:63). `statSync` also follows symbolic links, so a link cycle recurses until a path error is thrown. The finite `Entry` tree cannot express either case.
- `Date.now` is not modelled; the elapsed milliseconds are a parameter.
- page-maker.mjs is not part of this model. It is a build script that writes files; its `js-beautify` result is computed and never used.
