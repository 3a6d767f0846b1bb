/** The MIME table shared by server.mjs and server.js, and the lookup
    `MIME_TYPES[file.ext] || MIME_TYPES.default`. */
module Mime {
  import opened Optional

  /** The fallback content type, stored under the key "default". */
  const OctetStream := "application/octet-stream"

  /** The HTML content type, with its charset parameter. */
  const HtmlType := "text/html; charset=UTF-8"

  /** `MIME_TYPES[ext]`: the table entry for a key, in the order written,
      or nothing for a key the table does not list. */
  function Listed(ext: string): (r: Option<string>)
  {
    match ext
    case "default" => Some("application/octet-stream")
    case "aac" => Some("audio/aac")
    case "bin" => Some("application/octet-stream")
    case "bmp" => Some("image/bmp")
    case "css" => Some("text/css")
    case "csv" => Some("text/csv")
    case "doc" => Some("application/msword")
    case "docx" => Some("application/vnd.openxmlformats-officedocument.wordprocessingml.document")
    case "eot" => Some("application/vnd.ms-fontobject")
    case "epub" => Some("application/epub+zip")
    case "gz" => Some("application/gzip")
    case "gif" => Some("image/gif")
    case "htm" => Some("text/html; charset=UTF-8")
    case "html" => Some("text/html; charset=UTF-8")
    case "ico" => Some("image/x-icon")
    case "ics" => Some("text/calendar")
    case "jpeg" => Some("image/jpeg")
    case "jpg" => Some("image/jpeg")
    case "js" => Some("text/javascript")
    case "json" => Some("application/json")
    case "jsonld" => Some("application/ld+json")
    case "mjs" => Some("text/javascript")
    case "mp3" => Some("audio/mpeg")
    case "mp4" => Some("video/mp4")
    case "mpeg" => Some("video/mpeg")
    case "png" => Some("image/png")
    case "pdf" => Some("application/pdf")
    case "php" => Some("application/x-httpd-php")
    case "ppt" => Some("application/vnd.ms-powerpoint")
    case "pptx" => Some("application/vnd.openxmlformats-officedocument.presentationml.presentation")
    case "svg" => Some("image/svg+xml")
    case "tar" => Some("application/x-tar")
    case "tif" => Some("image/tiff")
    case "tiff" => Some("image/tiff")
    case "txt" => Some("text/plain")
    case "vsd" => Some("application/vnd.visio")
    case "wav" => Some("audio/wav")
    case "webm" => Some("video/webm")
    case "woff" => Some("font/woff")
    case "woff2" => Some("font/woff2")
    case "xhtml" => Some("application/xhtml+xml")
    case "xls" => Some("application/vnd.ms-excel")
    case "xlsx" => Some("application/vnd.openxmlformats-officedocument.spreadsheetml.sheet")
    case "xml" => Some("application/xml")
    case "zip" => Some("application/zip")
    case _ => None
  }

  /** JavaScript's `a || b` on strings, with `undefined` written as "". */
  function Or(a: string, b: string): (r: string)
  {
    if a != "" then a else b
  }

  /** `MIME_TYPES[ext] || MIME_TYPES.default`: a listed extension gives its
      table value, anything else the fallback; the lookup is total and
      never empty. */
  function MimeType(ext: string): (r: string)
    ensures r != ""
    ensures Listed(ext).Some? ==> r == Listed(ext).value
    ensures Listed(ext).None? ==> r == OctetStream
  {
    var listed := match Listed(ext) case Some(v) => v case None => "";
    var fallback := match Listed("default") case Some(v) => v case None => "";
    Or(listed, fallback)
  }

  /** The "default" entry holds the fallback type. */
  lemma DefaultEntry()
    ensures Listed("default") == Some(OctetStream)
  {
  }

  /** Both HTML spellings give the HTML type with its charset. */
  lemma HtmlTypes()
    ensures MimeType("htm") == HtmlType && MimeType("html") == HtmlType
  {
  }

  /** Stylesheets, images, and the empty extension a trailing-slash request
      ends with (no entry, so the fallback). */
  lemma CommonTypes()
    ensures MimeType("css") == "text/css"
    ensures MimeType("png") == "image/png"
    ensures MimeType("js") == "text/javascript" && MimeType("mjs") == "text/javascript"
    ensures MimeType("") == OctetStream
  {
  }
}
