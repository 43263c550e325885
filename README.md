# A verified model of the custom HTTP server's request pipeline

The server (`src/main/java/Main.java`) is one class whose `main` method
accepts TCP connections on port 4221 one at a time and, for each, reads the
request line and the header lines, picks a response from the request target
and writes it back. This project lifts the per-connection pipeline out of
the socket code and models it in Dafny:

* the **request-line gate** — a missing (`readLine` returned null) or empty
  request line closes the connection without a response;
* the **header scan** — lines are read up to the first empty line or the end
  of input, and the trimmed value of the last header whose lower-cased text
  starts with `user-agent:` is kept (default `""`);
* the **request target** — element 1 of the request line split on `\s+`; a
  line with fewer than two elements makes the index throw an
  `ArrayIndexOutOfBoundsException`, which is not an `IOException`, escapes
  both `catch` blocks and ends the server;
* the **route check** — `200 OK` for `/`, any `/echo/...` and any
  `/user-agent...` target, `404 Not Found` otherwise;
* the **response assembly** — for `/echo/` targets the body is element 2 of
  `path.split("/")` (or `""`), for `/user-agent` targets it is the scanned user
  agent, and both get `Content-Type: text/plain` and a `Content-Length` that
  counts UTF-16 code units; every other target gets an empty header block and
  an empty body; the response is status line + headers + body.

A connection's input is the sequence of lines `readLine` would return (the
empty sequence stands for a null first line), and its outcome is one of
`Closed`, `Responded(text)` or `Aborted` (`Server.Outcome`).

Files:

* `options.dfy` — `Option`.
* `sequences.dfy` — `DropWhile`, `DropLastWhile`, `Flatten`, `Join`, `Remove`.
* `java_strings.dfy` — the `java.lang.String` behaviour the handler relies
  on, with Java's rules written out: `split` with limit 0 (trailing empty
  strings dropped; a leading empty string when a `\s+` match starts the
  string; the whole string when nothing matches), `trim` (every code point up
  to U+0020), `length()` in UTF-16 code units, `startsWith`, ASCII
  `toLowerCase`, and decimal rendering of an `int` with its reading back.
* `http_message.dfy` — the HTTP/1.1 message layout and a client-side reader
  (`ParseMessage`); `server_properties.dfy` states what a client reading
  each response gets back.
* `server.dfy` — the pipeline: `ScanHeaders` is the header loop as a method
  with loop invariants; the rest are functions; `HandleConnection` runs the
  pipeline statement by statement and is proved equal to `Exchange`.
* `server_properties.dfy` — the properties of the pipeline.

Details of the handler that the model keeps:

* the header scan keeps the **last** `User-Agent` header;
* a header matches by the prefix `user-agent:` of its lower-cased text, so
  `User-Agent : x` is not recognised;
* `Content-Length` is `body.length()`, counted in UTF-16 code units, not in
  bytes;
* a request line that `split("\\s+")` turns into fewer than two elements
  ends the server (`GET`, `GET `, a line of blanks); a line that starts
  with whitespace keeps a leading empty element, so ` GET /x` is answered
  for the target `GET`;
* the handler has no `/files/` route, no `Accept-Encoding` handling and
  reads no request body.

## Model

| member | source | states |
|---|---|---|
| `JavaStrings.Trim` | src/main/java/Main.java:40 | `trim()` never lengthens its input, and its result is empty or starts and ends with a character above U+0020 |
| `JavaStrings.TrimSlice` | src/main/java/Main.java:40 | `trim()` removes only characters up to U+0020 and only at the ends: the result is a prefix of the text after the leading blank run, and only such characters follow it |
| `JavaStrings.TrimIgnoresLeading` | src/main/java/Main.java:40 | leading characters up to U+0020 (the space after `User-Agent:`) do not change the trimmed value |
| `JavaStrings.TrimOfTrimmed` | src/main/java/Main.java:40 | a value with no blank ends is its own trim |
| `JavaStrings.Utf16Length` | src/main/java/Main.java:57 | `length()` lies between the number of characters and twice that, and equals the number of characters exactly when all lie in the Basic Multilingual Plane |
| `JavaStrings.DecimalString` | src/main/java/Main.java:57 | the number appended to `Content-Length: ` is a non-empty string of decimal digits without a leading zero (except `0` itself) |
| `JavaStrings.ParseDecimal` | src/main/java/Main.java:57 | client side, the reader of the `Content-Length` value: reading a number succeeds exactly on non-empty digit strings |
| `JavaStrings.DecimalRoundTrip` | src/main/java/Main.java:57 | reading back the rendered `Content-Length` value gives the length |
| `JavaStrings.Pieces` | src/main/java/Main.java:45 | the pieces between delimiter matches contain no delimiter, and the first is the longest delimiter-free prefix, ended by a delimiter or the end of the string |
| `JavaStrings.Split` | src/main/java/Main.java:45 | `split` yields delimiter-free elements, the whole string when the pattern never matches, and never a trailing empty string otherwise |
| `JavaStrings.PiecesWithoutDelimiter` | src/main/java/Main.java:45 | a string without a delimiter is one piece |
| `JavaStrings.SplitKeepsPieces` | src/main/java/Main.java:54-55 | `split` keeps a prefix of the pieces and drops only empty ones, so `parts[k]` is the k-th piece whenever it exists |
| `JavaStrings.SplitKeepsNonEmptyPiece` | src/main/java/Main.java:45 | a non-empty piece is always an element of the `split` result |
| `JavaStrings.PiecesOfWord` | src/main/java/Main.java:45 | a delimiter-free word followed by a delimiter is a whole piece of its own |
| `JavaStrings.JoinPieces` | src/main/java/Main.java:54 | joining the pieces of `path.split("/")` with `/` gives back the path |
| `JavaStrings.PiecesUpToMatch` | src/main/java/Main.java:45 | when the first delimiter match is at position n, the first piece is the text before it and the remaining pieces are those of the text after the match |
| `JavaStrings.FirstPiece` | src/main/java/Main.java:45 | a delimiter-free word followed by a delimiter or by nothing is the first piece |
| `JavaStrings.SpaceFlatten` | src/main/java/Main.java:45 | the pieces between `\s+` matches hold exactly the non-space characters of the line, in order |
| `JavaStrings.SpaceInnerPieces` | src/main/java/Main.java:45 | between two `\s+` matches there is always some text: no piece other than the first and last is empty |
| `JavaStrings.SpaceSplitKeepsText` | src/main/java/Main.java:45 | the elements of `split("\\s+")` hold exactly the non-space characters of the line, in order |
| `JavaStrings.SpaceSplitTokens` | src/main/java/Main.java:45 | every element of `split("\\s+")` after the first is non-empty |
| `JavaStrings.SpaceSplit` | src/main/java/Main.java:45 | the elements of `split("\\s+")` hold exactly the non-space characters in order, and only the first may be empty |
| `HttpMessage.NextLine` | src/main/java/Main.java:49 | client side, the reader of the response: a line is the text before the first CRLF; none is found exactly when no CRLF exists |
| `HttpMessage.FirstBlankLine` | src/main/java/Main.java:56-57 | client side, the reader of the response: when no head line is empty or holds a CR, the first CRLF CRLF ends the head and is followed exactly by the body |
| `HttpMessage.ParseRender` | src/main/java/Main.java:67 | client side, the reader of the response is the inverse of the layout: a client reading a status line, CRLF-terminated header lines, a blank line and a body written in this layout gets all three back |
| `Server.HeaderBlock` | src/main/java/Main.java:38 | the scanned lines are the prefix of the input before the first empty line or the end of input |
| `Server.HeaderBlockUnique` | src/main/java/Main.java:38 | any stopping point with no empty line before it and an empty line or the end at it gives that same prefix |
| `Server.LastUserAgentStep` | src/main/java/Main.java:39-40 | reading one more header line replaces the kept value when the line is a `User-Agent` header and keeps it otherwise |
| `Server.ScanHeaders` | src/main/java/Main.java:36-42 | the loop stops at the first empty line or the end of input and leaves in `userAgent` the last-match value of the lines it read |
| `Server.HandleConnection` | src/main/java/Main.java:27-67 | running the pipeline statement by statement yields the outcome `Exchange` defines |
| `ServerProperties.ClosedExactlyWithoutRequestLine` | src/main/java/Main.java:30-33 | no response is sent exactly when the request line is missing or empty |
| `ServerProperties.AbortedExactlyWithoutTarget` | src/main/java/Main.java:45 | the server aborts exactly when a non-empty request line splits on `\s+` into fewer than two elements |
| `ServerProperties.SingleTokenAborts` | src/main/java/Main.java:45 | a non-empty request line without whitespace aborts the server |
| `ServerProperties.RequestTarget` | src/main/java/Main.java:45 | in `METHOD SP TARGET ...` the path is TARGET |
| `ServerProperties.SecondPiece` | src/main/java/Main.java:45 | in `METHOD SP TARGET ...` with no whitespace in METHOD or TARGET, TARGET is the second piece between `\s+` matches |
| `ServerProperties.LeadingBlankTarget` | src/main/java/Main.java:45 | a request line that starts with whitespace splits into a leading empty element and its first word, so that word is the path |
| `ServerProperties.LeadingBlankPieces` | src/main/java/Main.java:45 | the `\s+` pieces of a line starting with whitespace are an empty string followed by the first word |
| `ServerProperties.AfterBlankRun` | src/main/java/Main.java:45 | a `\s+` match takes the whole whitespace run, up to the next non-space character |
| `ServerProperties.UserAgentDefault` | src/main/java/Main.java:37 | without a matching header the user agent is `""` |
| `ServerProperties.UserAgentLastMatchWins` | src/main/java/Main.java:38-41 | the value of the last matching header wins over every earlier one |
| `ServerProperties.UserAgentHeader` | src/main/java/Main.java:39-40 | any header line whose first 11 characters lower-case to `user-agent:` matches, and its value is the trimmed remainder |
| `ServerProperties.UserAgentHeaderTrimmed` | src/main/java/Main.java:39-40 | a header name that lower-cases to `user-agent:`, then blanks, then a value with no blank ends, is a matching line whose value is exactly that value |
| `ServerProperties.LinesAfterBlankIgnored` | src/main/java/Main.java:38 | lines after the first empty header line cannot change the outcome |
| `ServerProperties.EchoBodyIsThirdSegment` | src/main/java/Main.java:53-55 | the echo body is the text after `/echo/` up to the next `/` or the end |
| `ServerProperties.EchoOfSegment` | src/main/java/Main.java:53-55 | `/echo/s` with no `/` in `s` echoes exactly `s` |
| `ServerProperties.EchoOfSegments` | src/main/java/Main.java:53-55 | `/echo/s/t` with no `/` in `s` echoes exactly `s`, whatever `t` is |
| `ServerProperties.EchoOfEmpty` | src/main/java/Main.java:54-55 | `/echo/` echoes `""` (only two elements survive the split) |
| `ServerProperties.EchoOfNested` | src/main/java/Main.java:54-55 | `/echo/a/b` echoes `a` |
| `ServerProperties.EchoOfDoubleSlash` | src/main/java/Main.java:54-55 | `/echo//x` echoes `""` |
| `ServerProperties.ExchangeBody` | src/main/java/Main.java:53-64 | for every input the server answers, the body a client reads back is the text after `/echo/` up to the next `/` or the end on `/echo/` targets, the user agent of the header block on other `/user-agent` targets, and empty on every other target |
| `ServerProperties.RootIsTheOnlyPlainKnownRoute` | src/main/java/Main.java:46 | `/` is the only target answered 200 without a text body |
| `ServerProperties.HeadLinesCrFree` | src/main/java/Main.java:49-61 | the status line and header lines are non-empty and hold no CR |
| `ServerProperties.ResponseIsRendered` | src/main/java/Main.java:49-67 | the concatenation is a status line, the chosen header lines, a blank line and the body |
| `ServerProperties.ResponseWireFormat` | src/main/java/Main.java:49-67 | a client reads back the status line, the two text headers on echo and user-agent targets and none elsewhere, and the body |
| `ServerProperties.BodyFollowsFirstBlankLine` | src/main/java/Main.java:67 | the text after the first CRLF CRLF of every response is exactly the body |
| `ServerProperties.ResponseStatus` | src/main/java/Main.java:46-49 | every response starts with `HTTP/1.1 `; its status line is `HTTP/1.1 200 OK` exactly on the known routes and `HTTP/1.1 404 Not Found` otherwise |
| `ServerProperties.TextHeaderValues` | src/main/java/Main.java:56-57 | the text headers declare `Content-Type` `text/plain` and `Content-Length` the body's length |
| `ServerProperties.DeclaredLengthMatchesBody` | src/main/java/Main.java:56-61 | on echo and user-agent targets the client reads `text/plain` and a `Content-Length` equal to the UTF-16 length of the body it reads |
| `ServerProperties.PlainResponse` | src/main/java/Main.java:62-64 | every other target is answered with the status line, one CRLF and nothing else |
| `ServerProperties.TextHeaderLines` | src/main/java/Main.java:56-57 | the text headers are `Content-Type: text/plain` CRLF `Content-Length: <n>` CRLF |
| `ServerProperties.TextResponse` | src/main/java/Main.java:56-61 | echo and user-agent responses are status line, the two text headers, a blank line and the body, character for character |
| `ServerProperties.ExchangeOfRequestLine` | src/main/java/Main.java:27-67 | a request line `METHOD SP TARGET ...` is answered for TARGET with the user agent of the header block |
| `ServerProperties.NotFoundResponse` | src/main/java/Main.java:49-64 | `/index.html` gets `HTTP/1.1 404 Not Found` CRLF CRLF |
| `ServerProperties.EchoResponse` | src/main/java/Main.java:53-57 | `/echo/abc` gets 200, `Content-Length: 3` and body `abc` |
| `ServerProperties.UserAgentResponse` | src/main/java/Main.java:58-61 | `/user-agent` with user agent `foo/1.0` gets 200, `Content-Length: 7` and body `foo/1.0` |
| `ServerProperties.ScannedUserAgent` | src/main/java/Main.java:36-42 | scanning `Host: ...`, `User-Agent: foo/1.0` and a blank line yields `foo/1.0` |
| `ServerProperties.UserAgentExchange` | src/main/java/Main.java:27-67 | the whole exchange for `GET /user-agent` with `User-Agent: foo/1.0` |
| `ServerProperties.EchoExchange` | src/main/java/Main.java:27-67 | the whole exchange for `GET /echo/abc` |
| `ServerProperties.NotFoundExchange` | src/main/java/Main.java:27-67 | the whole exchange for `GET /index.html` |

## Left out

- Socket creation, `setReuseAddress` and the accept loop with its try-with-resources (Main.java:12-17): network I/O; the model handles one connection, and `Closed` stands for "continue with the next one".
- `BufferedReader`/`InputStreamReader` and how `readLine` segments bytes into lines and decodes them: JDK code; the input is the sequence of lines it would return.
- `PrintWriter.println` appends the platform line separator after the response and flushes: output plumbing; the model's response text is what is passed to `println`.
- Console logging and `clearScreen`: no effect on the exchange.
- The `IOException` handlers: they only report I/O errors, which the model has none of.
- `JavaStrings.ToLower`: lower-cases ASCII letters only, because no other character lower-cases into a character of `user-agent:` (the Kelvin sign becomes `k`, U+0130 becomes `i` plus a combining dot), so the prefix test is decided the same way.
- `JavaStrings.Utf16Length`: an unbounded `nat`; a Java `int` cannot overflow here because a Java string never has more than 2^31 - 1 code units.
- Files, `Accept-Encoding`, request bodies and thread-per-connection handling: not present in this source.
