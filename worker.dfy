/** The edge worker that serves the previewer: the answer to one request, decided from its
    method and pathname against the table of static files and the table of MIME types. The
    two file bodies are substituted at build time and are parameters here. */
module Worker {
  import opened Strings

  /** A response body: `null`, or text. */
  datatype Body = Null | Text(text: string)

  datatype Response = Response(status: nat, body: Body, headers: map<string, string>)

  const MimeTypes: map<string, string> := map[
    ".html" := "text/html; charset=utf-8",
    ".js" := "application/javascript; charset=utf-8",
    ".css" := "text/css; charset=utf-8",
    ".json" := "application/json; charset=utf-8",
    ".ico" := "image/x-icon",
    ".png" := "image/png",
    ".jpg" := "image/jpeg",
    ".jpeg" := "image/jpeg",
    ".gif" := "image/gif",
    ".svg" := "image/svg+xml"
  ]

  const CorsHeaders: map<string, string> := map[
    "Access-Control-Allow-Origin" := "*",
    "Access-Control-Allow-Methods" := "GET, POST, OPTIONS",
    "Access-Control-Allow-Headers" := "Content-Type"
  ]

  const LongCache := "public, max-age=31536000, immutable"
  const ShortCache := "public, max-age=3600"

  /** `STATIC_FILES`, with the page and the script as built. */
  function StaticFiles(html: string, js: string): map<string, string>
  {
    map["/" := html, "/index.html" := html, "/app.js" := js]
  }

  /** `pathname.includes('.') ? '.' + pathname.split('.').pop() : '.html'` */
  function Extension(pathname: string): string
  {
    if Contains(pathname, ".") then
      var pieces := Split(pathname, ".");
      "." + pieces[|pieces| - 1]
    else ".html"
  }

  /** `MIME_TYPES[extension] || 'text/plain'` (every value in the table is non-empty). */
  function MimeType(extension: string): string
  {
    if extension in MimeTypes then MimeTypes[extension] else "text/plain"
  }

  predicate IsLowerHex(c: char)
  {
    '0' <= c <= '9' || 'a' <= c <= 'f'
  }

  /** `/\.[a-f0-9]{8}\.(js|css)$/`: the path ends in `.`, eight lower-case hex digits, `.`, and
      the suffix. */
  predicate HashedWith(pathname: string, suffix: string)
  {
    var n := |pathname| - |suffix| - 10;
    && n >= 0
    && pathname[n] == '.'
    && (forall k :: n + 1 <= k < n + 9 ==> IsLowerHex(pathname[k]))
    && pathname[n + 9] == '.'
    && pathname[n + 10..] == suffix
  }

  predicate HasHash(pathname: string)
  {
    HashedWith(pathname, "js") || HashedWith(pathname, "css")
  }

  function CacheControl(pathname: string): string
  {
    if HasHash(pathname) then LongCache else ShortCache
  }

  /** The worker's `fetch`. `pathname` is `None` when the request URL cannot be parsed, which
      takes the exception path. */
  function Fetch(requestMethod: string, pathname: Option<string>, html: string, js: string): Response
  {
    if pathname.None? then
      Response(500, Text("Internal Server Error"),
        map["Content-Type" := "text/plain", "Access-Control-Allow-Origin" := "*"])
    else if requestMethod == "OPTIONS" then
      Response(200, Null, CorsHeaders)
    else
      var path := pathname.value;
      var files := StaticFiles(html, js);
      if path in files && files[path] != "" then
        Response(200, Text(files[path]),
          map["Content-Type" := MimeType(Extension(path)), "Cache-Control" := CacheControl(path)] + CorsHeaders)
      else
        Response(404, Text("Not Found"), CorsHeaders)
  }

  /** A preflight request gets an empty body and the three CORS headers, whatever the path. */
  lemma OptionsPreflight(path: string, html: string, js: string)
    ensures Fetch("OPTIONS", Some(path), html, js) == Response(200, Null, CorsHeaders)
  {
  }

  /** Only `/`, `/index.html` and `/app.js` are served, and only while their built body is
      non-empty; every other request that is not a preflight gets 404 `Not Found`. */
  lemma ServedIff(requestMethod: string, path: string, html: string, js: string)
    requires requestMethod != "OPTIONS"
    ensures var r := Fetch(requestMethod, Some(path), html, js);
      && (r.status == 200 <==> ((path == "/" || path == "/index.html") && html != "") || (path == "/app.js" && js != ""))
      && (r.status != 200 ==> r == Response(404, Text("Not Found"), CorsHeaders))
      && (r.status == 200 ==> r.body == Text(if path == "/app.js" then js else html))
  {
  }

  /** A path without a dot is served as HTML; otherwise the extension is everything after the
      last dot. */
  lemma ExtensionAfterLastDot(path: string)
    ensures !Contains(path, ".") ==> Extension(path) == ".html"
    ensures match LastIndexOf(path, ".")
      case Some(p) => p + 1 <= |path| && Extension(path) == "." + path[p + 1..]
      case None => Extension(path) == ".html"
  {
    SplitLast(path, ".");
    if Contains(path, ".") {
      var q := IndexOf(path, ".", 0).value;
      assert LastIndexOf(path, ".").Some?;
    } else {
      assert forall k: nat :: !StartsAt(path, k, ".");
    }
  }

  /** An extension outside the table is served as plain text. */
  lemma MimeFallback(extension: string)
    requires extension !in MimeTypes
    ensures MimeType(extension) == "text/plain"
  {
  }

  /** The extension in terms of characters: `.html` for a path without a dot, and otherwise
      what follows the last dot. */
  lemma ExtensionByChars(path: string)
    ensures '.' !in path ==> Extension(path) == ".html"
    ensures forall p :: 0 <= p < |path| && path[p] == '.' && (forall k :: p < k < |path| ==> path[k] != '.') ==>
      Extension(path) == "." + path[p + 1..]
  {
    ExtensionAfterLastDot(path);
    match LastIndexOf(path, ".")
    case Some(q) =>
      assert path[q] == path[q..q + 1][0] == '.';
      forall p | 0 <= p < |path| && path[p] == '.' && (forall k :: p < k < |path| ==> path[k] != '.')
        ensures Extension(path) == "." + path[p + 1..]
      {
        assert path[p..p + 1] == ".";
        assert StartsAt(path, p, ".");
        assert p <= q < |path|;
        assert path[q] == '.';
      }
    case None =>
      forall p | 0 <= p < |path| ensures path[p] != '.' {
        assert !StartsAt(path, p, ".");
        assert path[p..p + 1] == [path[p]];
      }
  }

  /** A name ending in a dot and a dot-free suffix has that suffix as its extension. */
  lemma ExtensionOfSuffix(stem: string, suffix: string)
    requires '.' !in suffix
    ensures Extension(stem + "." + suffix) == "." + suffix
  {
    var path := stem + "." + suffix;
    var p := |stem|;
    assert path[p] == '.';
    forall k | p < k < |path| ensures path[k] != '.' {
      assert path[k] == suffix[k - p - 1];
    }
    ExtensionByChars(path);
    assert path[p + 1..] == suffix;
  }

  /** The root has no dot and is served as HTML. */
  lemma RootIsHtml()
    ensures MimeType(Extension("/")) == "text/html; charset=utf-8"
  {
    ExtensionByChars("/");
  }

  /** The two files with an extension are served with their own types: `/index.html` as HTML
      and `/app.js` as JavaScript. */
  lemma ServedFileTypes()
    ensures MimeType(Extension("/index.html")) == "text/html; charset=utf-8"
    ensures MimeType(Extension("/app.js")) == "application/javascript; charset=utf-8"
  {
    ExtensionOfSuffix("/index", "html");
    assert "/index" + "." + "html" == "/index.html";
    assert "." + "html" == ".html";
    assert MimeTypes[".html"] == "text/html; charset=utf-8";
    ExtensionOfSuffix("/app", "js");
    assert "/app" + "." + "js" == "/app.js";
    assert "." + "js" == ".js";
    assert MimeTypes[".js"] == "application/javascript; charset=utf-8";
  }

  /** None of the served paths carries a content hash, so every 200 response is cached for
      an hour. */
  lemma ServedCacheShort(requestMethod: string, path: string, html: string, js: string)
    requires Fetch(requestMethod, Some(path), html, js).status == 200 && requestMethod != "OPTIONS"
    ensures Fetch(requestMethod, Some(path), html, js).headers["Cache-Control"] == ShortCache
  {
    assert path == "/" || path == "/index.html" || path == "/app.js";
    assert !HasHash(path);
  }

  /** A hashed asset name would get the year-long immutable policy. */
  lemma HashedPathCachedLong(stem: string, hash: string, suffix: string)
    requires |hash| == 8 && (forall k :: 0 <= k < 8 ==> IsLowerHex(hash[k]))
    requires suffix == "js" || suffix == "css"
    ensures CacheControl(stem + "." + hash + "." + suffix) == LongCache
  {
    var p := stem + "." + hash + "." + suffix;
    var n := |stem|;
    assert p[n] == '.' && p[n + 9] == '.';
    assert forall k :: n + 1 <= k < n + 9 ==> p[k] == hash[k - n - 1];
    assert p[n + 10..] == suffix;
    assert HashedWith(p, suffix);
  }

  /** Every response allows any origin: preflight, 200, 404 and the exception path alike;
      all but the exception path carry all three CORS headers. */
  lemma CorsEverywhere(requestMethod: string, pathname: Option<string>, html: string, js: string)
    ensures var r := Fetch(requestMethod, pathname, html, js);
      "Access-Control-Allow-Origin" in r.headers && r.headers["Access-Control-Allow-Origin"] == "*"
    ensures var r := Fetch(requestMethod, pathname, html, js);
      pathname.Some? ==> forall h :: h in CorsHeaders ==> h in r.headers && r.headers[h] == CorsHeaders[h]
  {
    var r := Fetch(requestMethod, pathname, html, js);
    if pathname.Some? && requestMethod != "OPTIONS" {
      var path := pathname.value;
      var files := StaticFiles(html, js);
      if path in files && files[path] != "" {
        var own := map["Content-Type" := MimeType(Extension(path)), "Cache-Control" := CacheControl(path)];
        assert r.headers == own + CorsHeaders;
      } else {
        assert r.headers == CorsHeaders;
      }
    }
  }
}
