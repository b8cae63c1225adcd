# web.py static-file server, modelled in Dafny

`web.py` is a small single-threaded HTTP/1.1 server. It polls its sockets with
epoll and serves files from per-host document roots. This project models the
server's logic with the sockets taken away:

- **Request framer** (`framing.dfy`, `server.dfy`). `isfullrequest` and the data
  path of `handleClient` append every non-empty read to a per-descriptor buffer.
  A buffer that ends with the empty line closing an HTTP header block
  (`"\r\n\r\n"`, section 3 of RFC 7230) is handed to the responder and its entry
  deleted.
- **Responder** (`http.dfy`). `handleRequest`, `parseHeaders` and
  `getHeaderString` take the raw request, the `host` and `media` configuration
  tables and the file system, and produce one of these:
  - 400 for a request line that is not three tokens;
  - 501 for a method other than GET/HEAD, or a version other than HTTP/1.1
    (both compared after upper-casing);
  - 403 or 404 for open errors;
  - 206 for a `Range: bytes=a-b` header that parses;
  - 200 otherwise;
  - the exception that escapes the handler (a missing default host, an
    unknown extension, an unexpected open error).
- **Connection registry** (`server.dfy`). The class `WebServer` holds the open
  client descriptors (`clients`), their last-activity times (`times`) and their
  buffers (`cache`). These change on accept (`handleServer`), on a read
  (`handleClient`), on an error event (`handleError`) and in the idle sweep at
  the top of `serve`'s loop.
- **Configuration** (`config.dfy`). This is the line logic of `parseConfig`:
  `line.strip().split()`, lines with fewer than three tokens are skipped, and
  `config[t0][t1] = t2`, so the last line wins. A line naming a section other
  than `host`, `media` or `parameter` raises.
- `text.dfy` gives the Python 2 string operations the server relies on:
  - `split(sep)` and `split()`;
  - `strip` and `rstrip`;
  - `upper`;
  - `replace`;
  - `int()` and `str()`.
- `common.dfy` holds `Option`, `Result` and the faults, that is, the exceptions
  that end the process.

A response is a structured `Http.Response`. `Http.Render` gives the exact text
`handleRequest` returns. The Date value and the formatting of modification
times are parameters, because they come from the clock. Sockets become
descriptor numbers. What `recv` returns, what `accept` hands out, the
iteration order of `times` and the current time are method parameters.

Behaviour of `web.py` that the model keeps as written:

- `handleError` (lines 107-119) closes the client but leaves `times[fd]`. When
  that entry expires, the sweep's `poller.unregister(fd)` (line 82) is on a
  descriptor that is already closed. CPython 2.7's epoll turns the EBADF of
  that call into success, so the sweep drops the entry and goes on
  (`Server.HangupThenExpiry`).
- `handleError` (lines 115-119) and the sweep (lines 81-86) never delete
  `cache[fd]`. A later connection that gets the same descriptor number
  therefore starts with the old bytes (`Server.ReusedDescriptor`).
- The request line is split on single spaces (`split(" ")`, line 214). Two
  spaces in a row make an empty token and a 400.
- A `recv` error does not close the connection. The errno test at line 148 is
  always true, so every error is treated as would-block.
- The version is compared after `upper()` (line 223), so `http/1.1` is
  accepted.
- The Range branch (lines 255-263) does not look at the method, so HEAD with a
  valid Range gets a 206 with a body.

## Model

| member | source | states |
|---|---|---|
| Text.JoinSplit | web.py:214 | `split(sep)` loses nothing: joining the fields with the separator gives the string back |
| Text.SplitAfter | web.py:279 | the first field of a split ends at the first separator |
| Text.SplitNotOccurring | web.py:279 | a string in which the separator does not occur splits into itself |
| Text.SplitOccurring | web.py:279 | a string in which the separator occurs splits into at least two fields |
| Text.SplitFieldsFree | web.py:237 | no field of a split on one character contains that character |
| Text.RStripSpec | web.py:214 | `rstrip` removes exactly the trailing whitespace: a prefix that is empty or ends in a non-space, followed only by whitespace |
| Text.LStripSpec | web.py:279 | the leading-whitespace counterpart of `rstrip` |
| Text.WordsAreWords | web.py:186 | `split()` yields non-empty tokens without whitespace |
| Text.WordsJoin | web.py:186 | `split()` of whitespace-free words joined by spaces gives the words back |
| Text.ParseIntOfString | web.py:257 | `int(str(n)) == n` for every integer |
| Text.ReplaceWithout | web.py:257 | `replace` of a pattern whose first character is absent changes nothing |
| Framing.ReceiveConserves | web.py:154-159 | one read: the request handed over, followed by what stays buffered, is the old buffer followed by the data; only complete buffers are handed over; the buffer is empty afterwards; a non-empty read never leaves a complete buffer |
| Framing.ReceiveFrame | web.py:197-203 | one read on fd leaves every other descriptor's buffer unchanged and keeps every entry non-empty |
| Framing.ReceiveLocal | web.py:197-205 | what a read on fd does depends only on fd's own buffer |
| Framing.FeedConserves | web.py:195-208 | over a series of reads, nothing is lost or duplicated: the requests handed over, followed by the buffer, are the old buffer followed by every chunk |
| Framing.FeedHandsOverComplete | web.py:205 | every request handed to the responder ends with `"\r\n\r\n"` |
| Framing.FeedFrame | web.py:197-203 | a series of reads on fd leaves other buffers alone and never leaves a complete buffer on fd |
| Framing.AccumulatedSinceLastRequest | web.py:197-203 | while nothing is handed over, the buffer is the old buffer followed by every chunk since |
| Framing.FlattenAppend | web.py:203 | concatenating two runs of chunks concatenates their bytes |
| Framing.MergeReads | web.py:197-205 | two reads whose first leaves the buffer incomplete act as one read of both |
| Framing.Regroup | web.py:195-208 | when no read before the last completes the buffer, cutting the same bytes into different reads gives the same requests and cache |
| ServerConfig.ParseConfig | web.py:182-189 | the loop computes the fold `Load` over the lines, and stops at the first line that raises |
| ServerConfig.LoadStaysFailed | web.py:189 | once a line raises, later lines do not matter |
| ServerConfig.LoadedSections | web.py:183 | a configuration that loads has exactly the sections host, media and parameter |
| ServerConfig.LoadFailsIff | web.py:186-189 | loading raises exactly when some line of three or more tokens names an unknown section |
| ServerConfig.LoadedEntryIff | web.py:186-189 | an entry exists exactly when some line of three or more tokens assigns it |
| ServerConfig.LastAssignmentWins | web.py:189 | an entry's value is the third token of the last line that assigns it |
| Http.ParseHeaders | web.py:274-284 | the loop computes `Headers`: the header map built from the lines after the first |
| Http.HandleRequest | web.py:210-215 | `handleRequest` with the headers from the `parseHeaders` loop yields `Respond` |
| Http.HeaderPresentIff | web.py:278-283 | a header is present exactly when some line after the first splits on `": "` into at least two fields with that name |
| Http.LastHeaderWins | web.py:281 | a later line with the same name overwrites an earlier one |
| Http.RequestLineSkipped | web.py:276-277 | the request line is never read as a header |
| Http.HeaderIffSeparator | web.py:279-283 | a line declares a header exactly when its stripped form contains `": "`; every other line, the blank terminator included, is skipped |
| Http.HeaderLineRoundTrip | web.py:279-281 | `Name: value\r` reads back as that header when the name has no colon and the value no `": "` |
| Http.HeaderValueCut | web.py:279-281 | a value that holds `": "` is cut at it, and the rest of the line is dropped |
| Http.RequestLineRoundTrip | web.py:214 | a request line of three space-free tokens ending in CRLF reads back as those tokens |
| Http.BareGet | web.py:214-217 | a first line of just `GET` is read as `GET / HTTP/1.1` |
| Http.Answer | web.py:218-226 | 400 exactly when the request line is not three tokens; 501 exactly when it is three tokens with an unsupported method or version; any other status only for a supported line |
| Http.CaseIgnored | web.py:223 | the method and the version are compared without regard to case |
| Http.IndexForRoot | web.py:227-228 | `/` and `index.html` get the same answer |
| Http.UnknownHostIgnored | web.py:231-234 | a Host header naming no configured host is treated as absent |
| Http.ExtensionIsLastField | web.py:237 | the extension has no dot and, when the path has one, is what follows the last dot |
| Http.ReadsOneFile | web.py:235-238 | the answer depends on the file system only through the one path requested |
| Http.OpenErrorAnswers | web.py:239-250 | errno 13 gives the 403 page and errno 2 (a missing path included) the 404 page, for every method and Range; any other errno makes GET raise |
| Http.RangeRoundTrip | web.py:255-257 | `bytes=a-b` with decimal bounds reads back as `(a, b)` |
| Http.OpenEndedRangeIgnored | web.py:256-263 | `bytes=a-` does not parse, so no 206 is sent |
| Http.SuffixRangeIgnored | web.py:256-263 | `bytes=-n` does not parse either |
| Http.MalformedRangeIgnored | web.py:262-263 | a Range that does not parse is answered as if it were absent |
| Http.RangeReply | web.py:255-261 | a parsed Range gives a 206 with `Content-Range: bytes a-b/size`; the body is `data[a:b+1]` and matches Content-Length inside the file; past the end, Content-Length overstates the body |
| Http.UnknownTypeFails | web.py:255-270 | an extension with no media type raises, with or without a Range when the file opens, and for every other open error (not 13 or 2) and stat when it does not |
| Http.WholeFile | web.py:265-268 | a 200 to GET carries the whole file with its Content-Length, modification time and media type |
| Http.HeadLikeGet | web.py:265-272 | HEAD gets GET's answer without the body of a 200, and never raises where GET does not |
| Http.ContentLengthRoundTrip | web.py:286-289 | the Content-Length written by getHeaderString reads back as the length given |
| Server.WebServer.constructor | web.py:35-44 | a new server has no clients, no times and no buffers |
| Server.WebServer.IsFullRequest | web.py:195-208 | appends the data to fd's buffer and reports whether it now ends with `"\r\n\r\n"` |
| Server.WebServer.HandleClient | web.py:142-180 | any recv error and any empty read change nothing; a non-empty read sets fd's time and goes through the framer; a complete request is answered and its buffer dropped, or the exception escapes with the buffer kept |
| Server.WebServer.HandleServer | web.py:121-140 | every accepted descriptor joins `clients` and gets the current time; nothing else changes |
| Server.WebServer.HandleError | web.py:107-119 | an error on a client removes it from `clients` only; an error on the listener raises |
| Server.WebServer.Dispatch | web.py:94-104 | error events go to handleError (client closed, times and cache kept), the listener to handleServer (accepted descriptors registered at now, cache kept), a client to handleClient (times refreshed on a non-empty read, buffer extended, dropped once a request is answered) |
| Server.WebServer.Retire | web.py:77-86 | an expired open client gets a last read and is dropped from `clients` and `times`; an expired entry whose client is already closed is dropped from `times` with no read and no fault; the buffer is kept either way |
| Server.WebServer.Sweep | web.py:75-86 | without a fault, exactly the expired entries leave `clients` and `times`, every other entry is unchanged, buffers are kept, and the replies are those of the last reads; entries whose client is already closed are dropped without a read; a fault happens exactly when the last request of an expired open client raises |
| Server.RepliesOfStep | web.py:77-79 | adding one descriptor to the swept set adds its reply, if any |
| Server.SweepStep | web.py:77-79 | the last read on one descriptor updates its buffer and no other |
| Server.ExpiredGrows | web.py:77 | the idle set only grows as the clock advances |
| Server.SweepsCompose | web.py:75-86 | after a sweep every remaining entry is recent, and sweeping at t and then at a later u leaves the same `times` entries as one sweep at u |
| Server.HangupThenExpiry | web.py:77-86 | a client that hung up keeps its time entry; when it expires the sweep drops it without a fault or a reply, and the bytes the client left stay buffered |
| Server.ReusedDescriptor | web.py:81-86 | a new connection on a reused descriptor has its request prefixed by the old connection's unanswered bytes |

## Left out

- Sockets and epoll are not modelled. This covers registration, `poll`, `accept`, `recv`, `send`, `setblocking`, `open_socket` and its `sys.exit` paths. Received bytes, accepted descriptors and poll events are method inputs.
- The send loop (lines 163-172) is not modelled. `Render` gives the whole text to send, and writing it out is I/O.
- Every `recv` and `send` error counts as would-block, because `value==errno.EAGAIN or errno.EWOULDBLOCK` is always true. The model keeps this for `recv` (`HandleClient` with no data) and leaves out the send-side retry.
- Listener recreation (lines 111-114) calls a method that does not exist, so it becomes the fault `ListenerLost`. Re-registration is not modelled.
- The clock is not modelled. `time.time()`, `strftime` and `gmtime` are parameters: times are integer ticks, `Sweep` reads one `now` for the whole pass, and Date and Last-Modified texts come from the `date` and `stamp` parameters.
- Server.WebServer.constructor takes the timeout as integer ticks. `float(config['parameter']['timeout'])` (line 190) is not modelled, including its failure when the entry is missing.
- The real file system is not modelled. A path maps to its bytes and modification time, or to an errno together with what `os.path.getsize`/`getmtime` report for it. The file's size is the length of its bytes.
- Modification times are integers, so the `if lastMod:` test (line 290) becomes a test against 0.
- Text.ParseInt accepts surrounding whitespace, one sign and decimal digits. It rejects one spelling that Python 2's `int()` accepts: whitespace between the sign and the digits.
- The `while True` of `serve` and the failure of `poll` that ends it are not modelled. `Dispatch` and `Sweep` are the steps the loop repeats.
- Server.WebServer.Retire assumes the epoll behaviour of CPython 2.7, where unregistering a closed descriptor returns without error. Under `select.poll` that call raises KeyError, and under Python 3 it raises OSError. The model does not cover either.
- Which exception escapes is kept only as a `Fault` value. Tracebacks, logging, `Main` and argument parsing are not modelled.
