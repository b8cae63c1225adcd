/**
 * web.py's handleRequest, parseHeaders and getHeaderString: a complete raw
 * request, the configuration tables and the file system give a response.
 * The clock is left to the caller: the Date value and the formatting of
 * modification times are parameters of Render.
 */
module Http {
  import opened Common
  import opened Text
  import opened ServerConfig

  /** The two errno values handleRequest answers: permission denied and no such file. */
  const EACCES: int := 13
  const ENOENT: int := 2

  /**
   * What a path holds: a readable file with its bytes and modification time,
   * or a path whose open fails with errno; such a path may still have a size
   * and a modification time to report (a directory does).
   */
  datatype Entry =
    | Contents(data: string, mtime: int)
    | OpenError(errno: int, stat: Option<(int, int)>)

  type FileSystem = map<string, Entry>

  function Open(fs: FileSystem, path: string): Entry {
    if path in fs then fs[path] else OpenError(ENOENT, None)
  }

  datatype Status = Ok | PartialContent | BadRequest | Forbidden | NotFound | NotImplemented

  function StatusLine(s: Status): string {
    match s
    case Ok => "HTTP/1.1 200 OK"
    case PartialContent => "HTTP/1.1 206 Partial Content"
    case BadRequest => "HTTP/1.1 400 Bad Request"
    case Forbidden => "HTTP/1.1 403 Forbidden"
    case NotFound => "HTTP/1.1 404 Not Found"
    case NotImplemented => "HTTP/1.1 501 Not Implemented"
  }

  /**
   * A response as handleRequest assembles it. lastModified holds the file's
   * modification time where the source passes one to getHeaderString.
   */
  datatype Response = Response(
    status: Status,
    contentType: string,
    contentLength: int,
    lastModified: Option<int>,
    contentRange: Option<string>,
    body: string)

  /** getHeaderString; Last-Modified is written only for a non-zero time, as `if lastMod:` does. */
  function HeaderString(contentLength: int, lastModified: Option<int>, date: string, stamp: int -> string): string {
    "\r\nContent-Length: " + IntToString(contentLength) +
    "\r\nDate: " + date +
    "\r\nServer: web" +
    (if lastModified.Some? && lastModified.value != 0 then "\r\nLast-Modified: " + stamp(lastModified.value) else "")
  }

  /** Everything before the body. */
  function Head(r: Response, date: string, stamp: int -> string): string {
    StatusLine(r.status) +
    "\r\nContent-Type: " + r.contentType +
    HeaderString(r.contentLength, r.lastModified, date, stamp) +
    (if r.contentRange.Some? then "\r\nContent-Range: " + r.contentRange.value else "") +
    "\r\n\r\n"
  }

  /** The text handleRequest returns. */
  function Render(r: Response, date: string, stamp: int -> string): string {
    Head(r, date, stamp) + r.body
  }

  function Page(message: string): string {
    "<head><title>No good</title></head><body>" + message + "</body>"
  }

  /** The small HTML error responses; their Content-Length counts the page without its trailing blank line. */
  function ErrorResponse(status: Status, message: string): Response {
    var page := Page(message);
    Response(status, "text/html", |page|, None, None, page + "\r\n\r\n")
  }

  /** The lines a StringIO over the request yields, each without its "\n". */
  function Lines(request: string): seq<string> {
    Split(request, "\n")
  }

  /** readline().rstrip().split(" "), with a bare "GET" read as "GET / HTTP/1.1". */
  function RequestLine(request: string): seq<string> {
    var tokens := Split(RStrip(Lines(request)[0]), " ");
    if tokens == ["GET"] then ["GET", "/", "HTTP/1.1"] else tokens
  }

  /** line.strip().split(": "): a header when there are at least two fields. */
  function HeaderOf(line: string): Option<(string, string)> {
    var fields := Split(Strip(line), ": ");
    if |fields| >= 2 then Some((fields[0], fields[1])) else None
  }

  predicate Declares(line: string, name: string) {
    HeaderOf(line).Some? && HeaderOf(line).value.0 == name
  }

  /** The header map built from the given lines, in order. */
  function HeadersOf(lines: seq<string>): map<string, string>
    decreases |lines|
  {
    if lines == [] then map[]
    else
      var m := HeadersOf(lines[..|lines| - 1]);
      match HeaderOf(lines[|lines| - 1])
      case None => m
      case Some((name, value)) => m[name := value]
  }

  /** parseHeaders: every line after the request line. */
  function Headers(request: string): map<string, string> {
    HeadersOf(Lines(request)[1..])
  }

  /** parseHeaders' loop. */
  method ParseHeaders(request: string) returns (headers: map<string, string>)
    ensures headers == Headers(request)
  {
    var lines := Lines(request);
    headers := map[];
    var i := 1;
    while i < |lines|
      invariant 1 <= i <= |lines|
      invariant headers == HeadersOf(lines[1..i])
    {
      assert lines[1..i + 1][..i - 1] == lines[1..i];
      var fields := Split(Strip(lines[i]), ": ");
      if |fields| >= 2 {
        headers := headers[fields[0] := fields[1]];
      }
      i := i + 1;
    }
    assert lines[1..i] == lines[1..];
  }

  /** handleRequest: the headers are parsed by parseHeaders' loop. */
  method HandleRequest(request: string, config: Config, fs: FileSystem) returns (r: Result<Response>)
    requires WellFormed(config)
    ensures r == Respond(request, config, fs)
  {
    var headers := ParseHeaders(request);
    r := Answer(RequestLine(request), headers, config, fs);
  }

  /**
   * A line declares a header exactly when ": " occurs in it once stripped;
   * the blank line that ends the header block, `Host:x` and `a: ` declare none.
   */
  lemma HeaderIffSeparator(line: string)
    ensures HeaderOf(line).Some? <==> Occurs(": ", Strip(line))
  {
    if Occurs(": ", Strip(line)) {
      SplitOccurring(Strip(line), ": ");
    } else {
      SplitNotOccurring(Strip(line), ": ");
    }
  }

  /** The Content-Length getHeaderString writes reads back, up to the next line break, as the length given. */
  lemma ContentLengthRoundTrip(contentLength: int, lastModified: Option<int>, date: string, stamp: int -> string)
    ensures var h := HeaderString(contentLength, lastModified, date, stamp);
      var prefix := "\r\nContent-Length: ";
      && |prefix| <= |h| && h[..|prefix|] == prefix
      && ParseInt(Split(h[|prefix|..], "\r\n")[0]) == Some(contentLength)
  {
    var h := HeaderString(contentLength, lastModified, date, stamp);
    var prefix := "\r\nContent-Length: ";
    var n := IntToString(contentLength);
    var rest := "Date: " + date + "\r\nServer: web" +
      (if lastModified.Some? && lastModified.value != 0 then "\r\nLast-Modified: " + stamp(lastModified.value) else "");
    assert h == prefix + (n + "\r\n" + rest);
    assert h[|prefix|..] == n + "\r\n" + rest;
    assert '\r' !in n by {
      if contentLength >= 0 {
        assert AllDigits(n);
      } else {
        assert AllDigits(n[1..]);
        assert n == "-" + n[1..];
      }
    }
    SplitAfter(n, "\r\n", rest);
    ParseIntOfString(contentLength);
  }

  /** A header is present exactly when some line declares it. */
  lemma {:induction false} HeaderPresentIff(lines: seq<string>, name: string)
    ensures name in HeadersOf(lines) <==> exists i | 0 <= i < |lines| :: Declares(lines[i], name)
    decreases |lines|
  {
    if lines != [] {
      var init := lines[..|lines| - 1];
      HeaderPresentIff(init, name);
      if exists i | 0 <= i < |init| :: Declares(init[i], name) {
        var i :| 0 <= i < |init| && Declares(init[i], name);
        assert lines[i] == init[i];
      }
      if exists i | 0 <= i < |lines| :: Declares(lines[i], name) {
        var i :| 0 <= i < |lines| && Declares(lines[i], name);
        if i < |init| {
          assert init[i] == lines[i];
        }
      }
    }
  }

  /** A later line for the same name overwrites an earlier one: the last declaration wins. */
  lemma {:induction false} LastHeaderWins(lines: seq<string>, i: nat)
    requires i < |lines| && HeaderOf(lines[i]).Some?
    requires forall j | i < j < |lines| :: !Declares(lines[j], HeaderOf(lines[i]).value.0)
    ensures var h := HeaderOf(lines[i]).value;
      h.0 in HeadersOf(lines) && HeadersOf(lines)[h.0] == h.1
    decreases |lines|
  {
    var init := lines[..|lines| - 1];
    if i < |lines| - 1 {
      assert init[i] == lines[i];
      forall j | i < j < |init| ensures !Declares(init[j], HeaderOf(lines[i]).value.0) {
        assert init[j] == lines[j];
      }
      LastHeaderWins(init, i);
    }
  }

  /** The request line is never read as a header: only the lines after it count. */
  lemma RequestLineSkipped(first: string, other: string, rest: string)
    requires '\n' !in first && '\n' !in other
    ensures Headers(first + "\n" + rest) == Headers(other + "\n" + rest)
  {
    SplitAfter(first, "\n", rest);
    SplitAfter(other, "\n", rest);
  }

  /** The method is HEAD or GET in any case, and the version is HTTP/1.1 in any case. */
  predicate Supported(line: seq<string>) {
    |line| == 3 && Upper(line[0]) in {"HEAD", "GET"} && Upper(line[2]) == "HTTP/1.1"
  }

  /** "/" names index.html. */
  function Target(path: string): string {
    if path == "/" then "index.html" else path
  }

  /** The Host header when it is a configured host, "default" otherwise. */
  function VirtualHost(headers: map<string, string>, hosts: map<string, string>): string {
    if "Host" in headers && headers["Host"] in hosts then headers["Host"] else "default"
  }

  /** root + "/" + path, or KeyError when the chosen host has no root. */
  function Location(path: string, headers: map<string, string>, hosts: map<string, string>): Result<string> {
    var host := VirtualHost(headers, hosts);
    if host in hosts then Success(hosts[host] + "/" + Target(path)) else Failure(NoDefaultHost)
  }

  /** reqFile.split(".")[-1] */
  function Extension(file: string): string {
    var fields := Split(file, ".");
    fields[|fields| - 1]
  }

  /** The path is its stem, a dot and its extension; the extension holds no dot. */
  lemma ExtensionIsLastField(file: string)
    ensures '.' !in Extension(file)
    ensures '.' in file ==> exists stem :: file == stem + "." + Extension(file)
  {
    var fields := Split(file, ".");
    SplitFieldsFree(file, '.');
    JoinSplit(file, ".");
    if |fields| > 1 {
      JoinLast(fields, ".");
    } else {
      assert file == fields[0];
    }
  }

  lemma {:induction false} JoinLast(parts: seq<string>, sep: string)
    requires |parts| > 1
    ensures Join(parts, sep) == Join(parts[..|parts| - 1], sep) + sep + parts[|parts| - 1]
    decreases |parts|
  {
    if |parts| > 2 {
      JoinLast(parts[1..], sep);
      assert parts[1..][..|parts| - 2] == parts[..|parts| - 1][1..];
    }
  }

  /** headers["Range"].replace("bytes=", "").split("-") read as two integers. */
  function RangeBounds(value: string): Option<(int, int)> {
    var fields := Split(Replace(value, "bytes=", ""), "-");
    if |fields| == 2 && ParseInt(fields[0]).Some? && ParseInt(fields[1]).Some? then
      Some((ParseInt(fields[0]).value, ParseInt(fields[1]).value))
    else None
  }

  function ByteRange(headers: map<string, string>): Option<(int, int)> {
    if "Range" in headers then RangeBounds(headers["Range"]) else None
  }

  /** Python's clamping of a slice index into [0, n]. */
  function Clamp(i: int, n: nat): nat {
    if i < 0 then (if i + n < 0 then 0 else i + n) else if i > n then n else i
  }

  /** s[from:to] */
  function Slice(s: string, from: int, to: int): string {
    var lo, hi := Clamp(from, |s|), Clamp(to, |s|);
    if lo < hi then s[lo..hi] else ""
  }

  /**
   * The file opened: a 206 when a Range header parses, else the whole file,
   * with no body for HEAD. An unknown extension raises KeyError on both paths.
   */
  function Deliver(verb: string, headers: map<string, string>, media: map<string, string>,
                   file: string, data: string, mtime: int): Result<Response>
  {
    var ext := Extension(file);
    if ext !in media then Failure(UnknownMediaType(ext))
    else
      match ByteRange(headers)
      case Some((first, last)) =>
        Success(Response(PartialContent, media[ext], last - first + 1, Some(mtime),
          Some("bytes " + IntToString(first) + "-" + IntToString(last) + "/" + IntToString(|data|)),
          Slice(data, first, last + 1)))
      case None =>
        Success(Response(Ok, media[ext], |data|, Some(mtime), None, if verb == "GET" then data else ""))
  }

  /**
   * Any other open error is not answered: the code goes on without a file
   * object. Reading it for GET raises (as does the Range branch, whose bare
   * except swallows that), while HEAD only asks the path for its size and
   * modification time.
   */
  function Unopened(verb: string, media: map<string, string>, file: string,
                    errno: int, stat: Option<(int, int)>): Result<Response>
  {
    var ext := Extension(file);
    if ext !in media then Failure(UnknownMediaType(ext))
    else if verb == "HEAD" && stat.Some? then
      Success(Response(Ok, media[ext], stat.value.0, Some(stat.value.1), None, ""))
    else Failure(OpenFailed(errno))
  }

  /** handleRequest, once the request line is split and the headers parsed. */
  function Answer(line: seq<string>, headers: map<string, string>, config: Config, fs: FileSystem): (r: Result<Response>)
    requires WellFormed(config)
    ensures (r.Success? && r.value.status == BadRequest) <==> |line| != 3
    ensures (r.Success? && r.value.status == NotImplemented) <==> |line| == 3 && !Supported(line)
    ensures r.Success? && r.value.status in {Ok, PartialContent, Forbidden, NotFound} ==> Supported(line)
  {
    if |line| != 3 then Success(ErrorResponse(BadRequest, "Bad request."))
    else if !Supported(line) then Success(ErrorResponse(NotImplemented, "Not implemented."))
    else
      match Location(line[1], headers, config["host"])
      case Failure(f) => Failure(f)
      case Success(file) =>
        match Open(fs, file)
        case OpenError(e, stat) =>
          if e == EACCES then Success(ErrorResponse(Forbidden, "Forbidden."))
          else if e == ENOENT then Success(ErrorResponse(NotFound, "Not found."))
          else Unopened(Upper(line[0]), config["media"], file, e, stat)
        case Contents(data, mtime) => Deliver(Upper(line[0]), headers, config["media"], file, data, mtime)
  }

  /** handleRequest */
  function Respond(request: string, config: Config, fs: FileSystem): Result<Response>
    requires WellFormed(config)
  {
    Answer(RequestLine(request), Headers(request), config, fs)
  }

  /** A request line of three space-free tokens ending in "\r\n" reads back as those tokens. */
  lemma RequestLineRoundTrip(verb: string, path: string, version: string, rest: string)
    requires ' ' !in verb && ' ' !in path && ' ' !in version
    requires '\n' !in verb && '\n' !in path && '\n' !in version
    requires version != [] && !IsSpace(version[|version| - 1])
    ensures RequestLine(verb + " " + path + " " + version + "\r\n" + rest) == [verb, path, version]
  {
    var text := verb + " " + path + " " + version;
    assert verb + " " + path + " " + version + "\r\n" + rest == (text + "\r") + "\n" + rest;
    SplitAfter(text + "\r", "\n", rest);
    assert (text + "\r")[..|text|] == text;
    assert RStrip(text + "\r") == RStrip(text) == text;
    assert text == verb + " " + (path + " " + version);
    SplitAfter(verb, " ", path + " " + version);
    SplitAfter(path, " ", version);
    SplitWithout(version, " ");
  }

  /** A bare "GET" line asks for the site's index over HTTP/1.1. */
  lemma BareGet(rest: string)
    ensures RequestLine("GET\r\n" + rest) == ["GET", "/", "HTTP/1.1"]
  {
    assert "GET\r\n" + rest == "GET\r" + "\n" + rest;
    SplitAfter("GET\r", "\n", rest);
    assert "GET\r"[..3] == "GET";
    SplitWithout("GET", " ");
  }

  /**
   * A header line "Name: value" followed by the "\r" of its CRLF is read
   * back as that header when the name has no colon and the value no ": ".
   */
  lemma HeaderLineRoundTrip(name: string, value: string)
    requires name != [] && !IsSpace(name[0]) && ':' !in name
    requires value != [] && !IsSpace(value[|value| - 1]) && !Occurs(": ", value)
    ensures HeaderOf(name + ": " + value + "\r") == Some((name, value))
  {
    var line := name + ": " + value;
    assert (line + "\r")[..|line|] == line;
    StripUnspaced(line);
    assert Strip(line + "\r") == line;
    SplitAfter(name, ": ", value);
    SplitNotOccurring(value, ": ");
  }

  /** A value that itself holds ": " is cut at the first one; the rest of the line is dropped. */
  lemma HeaderValueCut(name: string, value: string, tail: string)
    requires name != [] && !IsSpace(name[0]) && ':' !in name && ':' !in value
    requires tail != [] && !IsSpace(tail[|tail| - 1])
    ensures HeaderOf(name + ": " + value + ": " + tail).Some?
    ensures HeaderOf(name + ": " + value + ": " + tail).value.1 == value
  {
    var line := name + ": " + value + ": " + tail;
    StripUnspaced(line);
    assert line == name + ": " + (value + ": " + tail);
    SplitAfter(name, ": ", value + ": " + tail);
    SplitAfter(value, ": ", tail);
  }

  /** "/" and "index.html" name the same file. */
  lemma IndexForRoot(verb: string, version: string, headers: map<string, string>, config: Config, fs: FileSystem)
    requires WellFormed(config)
    ensures Answer([verb, "/", version], headers, config, fs) == Answer([verb, "index.html", version], headers, config, fs)
  {
  }

  /** The method and the version are compared without regard to case. */
  lemma CaseIgnored(line: seq<string>, other: seq<string>, headers: map<string, string>, config: Config, fs: FileSystem)
    requires WellFormed(config)
    requires |line| == 3 && |other| == 3 && line[1] == other[1]
    requires Upper(line[0]) == Upper(other[0]) && Upper(line[2]) == Upper(other[2])
    ensures Answer(line, headers, config, fs) == Answer(other, headers, config, fs)
  {
  }

  /** A Host header naming no configured host is treated as if it were absent. */
  lemma UnknownHostIgnored(line: seq<string>, headers: map<string, string>, config: Config, fs: FileSystem)
    requires WellFormed(config)
    requires "Host" in headers && headers["Host"] !in config["host"]
    ensures Answer(line, headers, config, fs) == Answer(line, headers - {"Host"}, config, fs)
  {
    assert ByteRange(headers) == ByteRange(headers - {"Host"});
  }

  /** Only the one file the request names is looked at. */
  lemma ReadsOneFile(line: seq<string>, headers: map<string, string>, config: Config, fs: FileSystem, other: FileSystem)
    requires WellFormed(config) && Supported(line)
    requires Location(line[1], headers, config["host"]).Success?
    requires Open(fs, Location(line[1], headers, config["host"]).value) == Open(other, Location(line[1], headers, config["host"]).value)
    ensures Answer(line, headers, config, fs) == Answer(line, headers, config, other)
  {
  }

  /**
   * Open errors: permission denied is a 403 and a missing file a 404 for
   * every method and Range; any other errno makes GET raise.
   */
  lemma OpenErrorAnswers(line: seq<string>, headers: map<string, string>, config: Config, fs: FileSystem)
    requires WellFormed(config) && Supported(line)
    requires Location(line[1], headers, config["host"]).Success?
    requires Open(fs, Location(line[1], headers, config["host"]).value).OpenError?
    ensures var e := Open(fs, Location(line[1], headers, config["host"]).value).errno;
      var r := Answer(line, headers, config, fs);
      && (e == EACCES ==> r == Success(ErrorResponse(Forbidden, "Forbidden.")))
      && (e == ENOENT ==> r == Success(ErrorResponse(NotFound, "Not found.")))
      && (e != EACCES && e != ENOENT && Upper(line[0]) == "GET" ==> r.Failure?)
  {
  }

  /** HEAD answers what GET answers, without the body of a 200; and it never raises where GET does not. */
  lemma HeadLikeGet(path: string, version: string, headers: map<string, string>, config: Config, fs: FileSystem)
    requires WellFormed(config)
    ensures var get := Answer(["GET", path, version], headers, config, fs);
      var head := Answer(["HEAD", path, version], headers, config, fs);
      && (get.Success? ==> head == Success(if get.value.status == Ok then get.value.(body := "") else get.value))
      && (head.Failure? ==> get.Failure?)
  {
    assert Upper("GET") == "GET";
    assert Upper("HEAD") == "HEAD";
  }

  /** A 200 to GET carries the whole file, and its Content-Length is the body's length. */
  lemma WholeFile(line: seq<string>, headers: map<string, string>, config: Config, fs: FileSystem)
    requires WellFormed(config)
    requires Supported(line) && Upper(line[0]) == "GET" && ByteRange(headers).None?
    ensures var r := Answer(line, headers, config, fs);
      r.Success? && r.value.status == Ok ==>
        var file := Location(line[1], headers, config["host"]).value;
        && Open(fs, file) == Contents(r.value.body, r.value.lastModified.value)
        && r.value.contentLength == |r.value.body|
        && r.value.contentType == config["media"][Extension(file)]
  {
  }

  /** Replacing "bytes=" in a string that starts with it and holds no other 'b' leaves the rest. */
  lemma StripUnit(rest: string)
    requires 'b' !in rest
    ensures Replace("bytes=" + rest, "bytes=", "") == rest
  {
    var s := "bytes=" + rest;
    assert s[..6] == "bytes=" && s[6..] == rest;
    ReplaceWithout(rest, "bytes=", "");
  }

  /** A well-formed "bytes=first-last" header reads back as its two bounds. */
  lemma RangeRoundTrip(first: nat, last: nat)
    ensures RangeBounds("bytes=" + IntToString(first) + "-" + IntToString(last)) == Some((first, last))
  {
    var a, b := IntToString(first), IntToString(last);
    assert "bytes=" + a + "-" + b == "bytes=" + (a + "-" + b);
    assert 'b' !in a && 'b' !in b && '-' !in a && '-' !in b by {
      assert AllDigits(a) && AllDigits(b);
    }
    StripUnit(a + "-" + b);
    SplitAfter(a, "-", b);
    SplitWithout(b, "-");
    ParseIntOfString(first);
    ParseIntOfString(last);
  }

  /** An open-ended range "bytes=first-" is not understood, so the whole file is sent. */
  lemma OpenEndedRangeIgnored(first: nat)
    ensures RangeBounds("bytes=" + IntToString(first) + "-") == None
  {
    var a := IntToString(first);
    assert "bytes=" + a + "-" == "bytes=" + (a + "-" + "");
    assert 'b' !in a && '-' !in a by {
      assert AllDigits(a);
    }
    StripUnit(a + "-" + "");
    SplitAfter(a, "-", "");
    assert ParseInt("") == None;
  }

  /** A suffix range "bytes=-count" is not understood either. */
  lemma SuffixRangeIgnored(count: nat)
    ensures RangeBounds("bytes=-" + IntToString(count)) == None
  {
    var b := IntToString(count);
    assert "bytes=-" + b == "bytes=" + ("" + "-" + b);
    assert 'b' !in b && '-' !in b by {
      assert AllDigits(b);
    }
    StripUnit("" + "-" + b);
    SplitAfter("", "-", b);
    assert ParseInt("") == None;
  }

  /**
   * A Range header that parses gets a 206, HEAD included. The body is the
   * slice of the file; Content-Length is last - first + 1, which is the
   * body's length only while the range lies inside the file and overstates
   * it when the range runs past the end.
   */
  lemma RangeReply(verb: string, headers: map<string, string>, media: map<string, string>,
                   file: string, data: string, mtime: int)
    requires Extension(file) in media && ByteRange(headers).Some?
    ensures var (first, last) := ByteRange(headers).value;
      var r := Deliver(verb, headers, media, file, data, mtime);
      && r.Success? && r.value.status == PartialContent
      && r.value.contentRange == Some("bytes " + IntToString(first) + "-" + IntToString(last) + "/" + IntToString(|data|))
      && (0 <= first <= last < |data| ==> r.value.body == data[first..last + 1] && |r.value.body| == r.value.contentLength)
      && (0 <= first <= last && |data| <= last ==> |r.value.body| < r.value.contentLength)
  {
    var (first, last) := ByteRange(headers).value;
    var body := Slice(data, first, last + 1);
    if 0 <= first <= last && |data| <= last {
      assert Clamp(last + 1, |data|) == |data|;
      assert Clamp(first, |data|) == if first > |data| then |data| else first;
    }
  }

  /**
   * An extension with no media type raises: once the file opens, with or
   * without a Range header; and after any open error other than 13 or 2,
   * whatever stat reports.
   */
  lemma UnknownTypeFails(verb: string, headers: map<string, string>, media: map<string, string>,
                         file: string, data: string, mtime: int, errno: int, stat: Option<(int, int)>)
    requires Extension(file) !in media
    ensures Deliver(verb, headers, media, file, data, mtime) == Failure(UnknownMediaType(Extension(file)))
    ensures Unopened(verb, media, file, errno, stat) == Failure(UnknownMediaType(Extension(file)))
  {
  }

  /** A Range header that does not parse is ignored. */
  lemma MalformedRangeIgnored(verb: string, headers: map<string, string>, media: map<string, string>,
                              file: string, data: string, mtime: int)
    requires "Range" in headers && RangeBounds(headers["Range"]).None?
    ensures Deliver(verb, headers, media, file, data, mtime) == Deliver(verb, headers - {"Range"}, media, file, data, mtime)
  {
  }
}
