/** `file_get_handler`: resolve the request URI to a path under the SPIFFS
    mount, pick a content type by substring search, and stream the file in
    chunks of at most 1024 bytes followed by an empty terminating chunk. */
module StaticFiles {
  import opened Base
  import opened CStrings
  import opened Http

  const MountPoint: CString := "/spiffs"
  const IndexPath: CString := "/spiffs/index.html"

  /** Size of the `filepath` buffer and of the read buffer `buf`. */
  const PathBufferSize := 1024
  const ChunkSize := 1024

  /** The path the handler opens for a request URI: "/" is the index page,
      anything else is appended to the mount point as is (no normalisation),
      cut to what fits in the 1024-byte buffer. */
  function ResolvePath(uri: CString): (p: CString)
    ensures |p| < PathBufferSize
  {
    if uri == "/" then Snprintf(PathBufferSize, IndexPath)
    else Snprintf(PathBufferSize, MountPoint + uri)
  }

  lemma ResolveRoot()
    ensures ResolvePath("/") == IndexPath
  {
  }

  /** Any other URI: the mount point, then the URI verbatim, truncated to
      1023 characters; nothing is lost when the URI has at most 1016. */
  lemma ResolveOther(uri: CString)
    requires uri != "/"
    ensures ResolvePath(uri) <= MountPoint + uri
    ensures |ResolvePath(uri)| == Min(|MountPoint| + |uri|, PathBufferSize - 1)
    ensures MountPoint <= ResolvePath(uri)
    ensures |uri| <= PathBufferSize - 1 - |MountPoint| ==> ResolvePath(uri) == MountPoint + uri
  {
  }

  /** Parent-directory segments pass through untouched. */
  lemma ResolveKeepsDotDot()
    ensures ResolvePath("/../secret") == "/spiffs/../secret"
  {
  }

  /** The type chosen by the first of ".html", ".css", ".js" found anywhere in
      the path, else "text/plain". */
  function ContentType(path: string): string
  {
    if Contains(path, ".html") then "text/html"
    else if Contains(path, ".css") then "text/css"
    else if Contains(path, ".js") then "text/javascript"
    else "text/plain"
  }

  /** The priority order, in both directions: a type is chosen exactly when its
      marker occurs somewhere in the path and no earlier marker does. */
  lemma ContentTypeChoice(path: string)
    ensures ContentType(path) == "text/html" <==> exists i :: OccursAt(path, ".html", i)
    ensures ContentType(path) == "text/css" <==>
              (!exists i :: OccursAt(path, ".html", i)) && (exists i :: OccursAt(path, ".css", i))
    ensures ContentType(path) == "text/javascript" <==>
              (!exists i :: OccursAt(path, ".html", i)) && (!exists i :: OccursAt(path, ".css", i))
              && (exists i :: OccursAt(path, ".js", i))
    ensures ContentType(path) == "text/plain" <==>
              (!exists i :: OccursAt(path, ".html", i)) && (!exists i :: OccursAt(path, ".css", i))
              && (!exists i :: OccursAt(path, ".js", i))
  {
    ContainsIff(path, ".html");
    ContainsIff(path, ".css");
    ContainsIff(path, ".js");
  }

  /** Worked cases: the index page is HTML, an image falls back to plain text,
      a path containing both ".css" and ".js" is CSS. */
  lemma IndexIsHtml()
    ensures ContentType(ResolvePath("/")) == "text/html"
  {
    // the '.' of ".html" in "/spiffs/index.html"
    HtmlAt(ResolvePath("/"), 13);
  }

  lemma LogoIsPlain()
    ensures ContentType(ResolvePath("/logo.png")) == "text/plain"
  {
    NoMarkerLetters(ResolvePath("/logo.png"));
  }

  /** A path with no 'h', 'c' or 'j' contains none of the markers. */
  lemma NoMarkerLetters(path: string)
    requires 'h' !in path && 'c' !in path && 'j' !in path
    ensures ContentType(path) == "text/plain"
  {
    AbsentCharNotContained(path, ".html", 1);
    AbsentCharNotContained(path, ".css", 1);
    AbsentCharNotContained(path, ".js", 1);
  }

  lemma StyleIsCss()
    ensures ContentType(ResolvePath("/style.css")) == "text/css"
  {
    // the '.' of ".css" in "/spiffs/style.css"
    CssRoute(ResolvePath("/style.css"), 13);
  }

  lemma W3IsCss()
    ensures ContentType(ResolvePath("/w3.css")) == "text/css"
  {
    // the '.' of ".css" in "/spiffs/w3.css"
    CssRoute(ResolvePath("/w3.css"), 10);
  }

  lemma ScriptIsJavascript()
    ensures ContentType(ResolvePath("/script.js")) == "text/javascript"
  {
    // the '.' of ".js" in "/spiffs/script.js"
    JsRoute(ResolvePath("/script.js"), 14);
  }

  /** When ".css" and ".js" both occur and ".html" does not, ".css" wins,
      wherever the two markers stand. */
  lemma CssBeatsJs(path: string)
    requires exists i :: OccursAt(path, ".css", i)
    requires exists i :: OccursAt(path, ".js", i)
    requires !exists i :: OccursAt(path, ".html", i)
    ensures ContentType(path) == "text/css"
  {
    ContentTypeChoice(path);
  }

  /** Substring, not suffix: "/a.js.css" ends in ".css" but also holds ".js". */
  lemma JsThenCssIsCss()
    ensures ContentType(ResolvePath("/a.js.css")) == "text/css"
  {
    // the '.' of ".css" in "/spiffs/a.js.css"
    CssRoute(ResolvePath("/a.js.css"), 12);
  }

  /** Substring, not suffix: ".html" inside a name beats a ".png" suffix. */
  lemma HtmlInsideName()
    ensures ContentType(ResolvePath("/page.html.png")) == "text/html"
  {
    // the '.' of ".html" in "/spiffs/page.html.png"
    HtmlAt(ResolvePath("/page.html.png"), 12);
  }

  /** ".html" at offset `at` makes the path HTML. */
  lemma HtmlAt(path: string, at: nat)
    requires at + 5 <= |path| && path[at..at + 5] == ".html"
    ensures ContentType(path) == "text/html"
  {
    assert OccursAt(path, ".html", at);
    ContainsIff(path, ".html");
  }

  /** A path without 'h' (so without ".html") and with ".css" at offset
      `at` is CSS. */
  lemma CssRoute(path: string, at: nat)
    requires 'h' !in path && at + 4 <= |path| && path[at..at + 4] == ".css"
    ensures ContentType(path) == "text/css"
  {
    AbsentCharNotContained(path, ".html", 1);
    assert OccursAt(path, ".css", at);
    ContainsIff(path, ".css");
  }

  /** The one '.' sits at `at`, too late for ".css" to fit after it. */
  lemma JsRoute(path: string, at: nat)
    requires 'h' !in path && 1 <= at && at + 3 == |path| && path[at..] == ".js" && '.' !in path[..at]
    ensures ContentType(path) == "text/javascript"
  {
    AbsentCharNotContained(path, ".html", 1);
    assert path[..|path| - 4 + 1] == path[..at];
    LeadCharTooLate(path, ".css");
    assert path[at..at + 3] == ".js";
    assert OccursAt(path, ".js", at);
    ContainsIff(path, ".js");
  }

  /** The bytes of a list of chunks, in order. */
  function Flatten(cs: seq<seq<byte>>): seq<byte>
  {
    if cs == [] then [] else cs[0] + Flatten(cs[1..])
  }

  /** What `fread(buf, 1, 1024, f)` returns `pos` bytes into a regular file. */
  function ReadLength(data: seq<byte>, pos: nat): (n: nat)
    requires pos <= |data|
    ensures n <= ChunkSize && pos + n <= |data|
    ensures n == 0 <==> pos == |data|
  {
    Min(ChunkSize, |data| - pos)
  }

  /** The body chunks of a file: each read returns up to 1024 bytes. */
  function Chunks(data: seq<byte>): seq<seq<byte>>
    decreases |data|
  {
    if |data| == 0 then []
    else
      var n := ReadLength(data, 0);
      [data[..n]] + Chunks(data[n..])
  }

  /** A valid cut of `data`: nonempty pieces of at most 1024 bytes, all full
      but the last, that concatenate back to `data`. */
  ghost predicate IsChunking(data: seq<byte>, cs: seq<seq<byte>>)
  {
    && Flatten(cs) == data
    && (forall i :: 0 <= i < |cs| ==> 1 <= |cs[i]| <= ChunkSize)
    && (forall i :: 0 <= i < |cs| - 1 ==> |cs[i]| == ChunkSize)
  }

  /** The chunks reproduce the file and respect the buffer size. */
  lemma {:induction false} ChunksAreChunking(data: seq<byte>)
    ensures IsChunking(data, Chunks(data))
    decreases |data|
  {
    if |data| > 0 {
      var n := ReadLength(data, 0);
      ChunksAreChunking(data[n..]);
      var cs := Chunks(data);
      assert cs[1..] == Chunks(data[n..]);
      assert data[..n] + data[n..] == data;
    }
  }

  /** Chunks is the only valid cut of the file. */
  lemma {:induction false} ChunksUnique(data: seq<byte>, cs: seq<seq<byte>>)
    requires IsChunking(data, cs)
    ensures cs == Chunks(data)
    decreases |cs|
  {
    if cs != [] {
      var n := |cs[0]|;
      if |cs| > 1 {
        assert Flatten(cs[1..]) == cs[1] + Flatten(cs[2..]);
      } else {
        assert cs[1..] == [];
      }
      assert n == ReadLength(data, 0);
      assert data[..n] == cs[0] && data[n..] == Flatten(cs[1..]);
      assert IsChunking(data[n..], cs[1..]);
      ChunksUnique(data[n..], cs[1..]);
      assert cs == [cs[0]] + cs[1..];
    }
  }

  /** The read/send loop of the handler: read up to 1024 bytes, send them as a
      chunk, until a read returns nothing; then send the empty chunk. */
  method StreamFile(data: seq<byte>) returns (sent: seq<seq<byte>>)
    ensures sent == Chunks(data) + [[]]
    ensures IsChunking(data, sent[..|sent| - 1]) && sent[|sent| - 1] == []
  {
    sent := [];
    var pos := 0;
    var readLen := ReadLength(data, pos);
    assert data[0..] == data;
    while readLen > 0
      invariant 0 <= pos <= |data|
      invariant readLen == ReadLength(data, pos)
      invariant sent + Chunks(data[pos..]) == Chunks(data)
      decreases |data| - pos
    {
      ChunksFrom(data, pos);
      var chunk := data[pos..pos + readLen];
      assert sent + Chunks(data[pos..]) == (sent + [chunk]) + Chunks(data[pos + readLen..]);
      sent := sent + [chunk];
      pos := pos + readLen;
      readLen := ReadLength(data, pos);
    }
    assert data[pos..] == [];
    assert sent == Chunks(data);
    sent := sent + [[]];
    assert sent[..|sent| - 1] == Chunks(data);
    ChunksAreChunking(data);
  }

  /** One read from `pos` peels the next chunk off the rest of the file. */
  lemma ChunksFrom(data: seq<byte>, pos: nat)
    requires pos < |data|
    ensures Chunks(data[pos..])
            == [data[pos..pos + ReadLength(data, pos)]] + Chunks(data[pos + ReadLength(data, pos)..])
  {
    var n := ReadLength(data, pos);
    var rest := data[pos..];
    assert rest[..n] == data[pos..pos + n];
    assert rest[n..] == data[pos + n..];
    ChunksUnfold(rest);
  }

  lemma ChunksUnfold(d: seq<byte>)
    requires |d| > 0
    ensures Chunks(d) == [d[..ReadLength(d, 0)]] + Chunks(d[ReadLength(d, 0)..])
  {
  }

  /** An empty trailing chunk adds no bytes. */
  lemma {:induction false} FlattenEmptyLast(cs: seq<seq<byte>>)
    ensures Flatten(cs + [[]]) == Flatten(cs)
    decreases |cs|
  {
    if cs != [] {
      assert (cs + [[]])[1..] == cs[1..] + [[]];
      FlattenEmptyLast(cs[1..]);
    }
  }

  /** The SPIFFS files that `fopen` can open, by full path. */
  type FileSystem = map<CString, seq<byte>>

  /** `file_get_handler`. A file that cannot be opened gets a 404 and ESP_FAIL
      with no body; otherwise the file is sent, typed by its path, as chunks
      of 1..1024 bytes that concatenate to its contents, then the empty chunk. */
  function FileGet(fs: FileSystem, uri: CString): (r: Served)
    ensures ResolvePath(uri) !in fs <==> r.reply == NotFound
    ensures ResolvePath(uri) !in fs <==> r.err == EspFail
    ensures ResolvePath(uri) in fs ==>
              && r.reply.Chunked?
              && r.reply.contentType == ContentType(ResolvePath(uri))
              && |r.reply.chunks| >= 1
              && r.reply.chunks[|r.reply.chunks| - 1] == []
              && Flatten(r.reply.chunks[..|r.reply.chunks| - 1]) == fs[ResolvePath(uri)]
              && forall i :: 0 <= i < |r.reply.chunks| - 1 ==> 1 <= |r.reply.chunks[i]| <= ChunkSize
  {
    var path := ResolvePath(uri);
    if path !in fs then Served(NotFound, EspFail)
    else
      var body := Chunks(fs[path]) + [[]];
      assert body[..|body| - 1] == Chunks(fs[path]);
      ChunksAreChunking(fs[path]);
      Served(Chunked(ContentType(path), body), EspOk)
  }

  /** The handler as it runs: the loop produces exactly the reply described
      by FileGet. */
  method HandleFileGet(fs: FileSystem, uri: CString) returns (r: Served)
    ensures r == FileGet(fs, uri)
    ensures r.reply.Chunked? ==> Flatten(r.reply.chunks) == fs[ResolvePath(uri)]
  {
    var path := ResolvePath(uri);
    var contentType := ContentType(path);
    if path !in fs {
      return Served(NotFound, EspFail);
    }
    var sent := StreamFile(fs[path]);
    FlattenEmptyLast(Chunks(fs[path]));
    ChunksAreChunking(fs[path]);
    return Served(Chunked(contentType, sent), EspOk);
  }
}
