/**
 * The per-connection request pipeline of the server's accept loop: the
 * request-line gate, the header scan, the request-target extraction, the
 * route check and the response assembly, lifted out of the socket code.
 * The connection's input is the sequence of lines `readLine` would return;
 * an empty sequence stands for `readLine` returning null.
 */
module Server {
  import opened Options
  import opened Sequences
  import opened JavaStrings
  import opened HttpMessage

  /** What the handler does with one connection. */
  datatype Outcome =
    | Closed                       // no request line: the socket is closed, the loop accepts the next connection
    | Responded(response: string)  // the response text handed to `println`
    | Aborted                      // `split("\\s+")[1]` threw; the exception is not an IOException and ends the server

  const UserAgentKey: string := "user-agent:"
  const EchoPrefix: string := "/echo/"
  const UserAgentPrefix: string := "/user-agent"

  /** A header line whose lower-cased text starts with `user-agent:`. */
  predicate IsUserAgentLine(line: string)
  {
    StartsWith(ToLower(line), UserAgentKey)
  }

  /** The trimmed text after the `user-agent:` prefix. */
  function UserAgentValue(line: string): string
    requires IsUserAgentLine(line)
  {
    Trim(line[|UserAgentKey|..])
  }

  /** The value the header scan leaves in `userAgent` after reading `block`: the last match wins. */
  function LastUserAgent(block: seq<string>): string
  {
    if block == [] then ""
    else if IsUserAgentLine(block[|block| - 1]) then UserAgentValue(block[|block| - 1])
    else LastUserAgent(block[..|block| - 1])
  }

  /** Reading header line `k`: a matching line replaces the value, any other keeps it. */
  lemma LastUserAgentStep(lines: seq<string>, k: nat)
    requires k < |lines|
    ensures LastUserAgent(lines[..k + 1])
      == if IsUserAgentLine(lines[k]) then UserAgentValue(lines[k]) else LastUserAgent(lines[..k])
  {
    var next := lines[..k + 1];
    assert next[k] == lines[k];
    assert next[..k] == lines[..k];
  }

  /** The header lines the scan reads: those before the first empty line or the end of input. */
  function HeaderBlock(lines: seq<string>): (block: seq<string>)
    ensures |block| <= |lines| && block == lines[..|block|]
    ensures forall i :: 0 <= i < |block| ==> block[i] != ""
    ensures |block| == |lines| || lines[|block|] == ""
  {
    if lines == [] || lines[0] == "" then [] else [lines[0]] + HeaderBlock(lines[1..])
  }

  /** None of the first `n` lines is empty. */
  predicate NoBlankBefore(lines: seq<string>, n: nat)
    requires n <= |lines|
  {
    forall i :: 0 <= i < n ==> lines[i] != ""
  }

  /**
   * The header loop: reads lines until an empty one or the end of input,
   * keeping the value of the last `User-Agent` header. `count` is the
   * number of non-empty header lines read.
   */
  method ScanHeaders(lines: seq<string>) returns (userAgent: string, count: nat)
    ensures count <= |lines|
    ensures NoBlankBefore(lines, count)
    ensures count == |lines| || lines[count] == ""
    ensures userAgent == LastUserAgent(lines[..count])
  {
    userAgent := "";
    count := 0;
    while count < |lines| && lines[count] != ""
      invariant count <= |lines|
      invariant NoBlankBefore(lines, count)
      invariant userAgent == LastUserAgent(lines[..count])
    {
      var headerLine := lines[count];
      LastUserAgentStep(lines, count);
      if IsUserAgentLine(headerLine) {
        userAgent := UserAgentValue(headerLine);
      }
      count := count + 1;
    }
  }

  /** The request target: element 1 of the request line split on `\s+`, if there is one. */
  function RequestPath(requestLine: string): Option<string>
  {
    var tokens := Split(requestLine, SpaceRun);
    if |tokens| < 2 then None else Some(tokens[1])
  }

  /** The routes the server answers with 200 (`valid` in the handler). */
  predicate IsKnownRoute(path: string)
  {
    path == "/" || StartsWith(path, EchoPrefix) || StartsWith(path, UserAgentPrefix)
  }

  /** The routes whose response carries a text body and its headers. */
  predicate IsTextRoute(path: string)
  {
    StartsWith(path, EchoPrefix) || StartsWith(path, UserAgentPrefix)
  }

  function StatusText(path: string): string
  {
    if IsKnownRoute(path) then "HTTP/1.1 200 OK" else "HTTP/1.1 404 Not Found"
  }

  /** Element 2 of `path.split("/")`, or the empty string when there are at most two elements. */
  function EchoBody(path: string): string
  {
    var parts := Split(path, Literal('/'));
    if |parts| > 2 then parts[2] else ""
  }

  /** The body the handler chooses, branch by branch. */
  function Body(path: string, userAgent: string): string
  {
    if StartsWith(path, EchoPrefix) then EchoBody(path)
    else if StartsWith(path, UserAgentPrefix) then userAgent
    else ""
  }

  /** The header lines of a text response; `Content-Length` counts UTF-16 code units. */
  function TextHeaders(body: string): seq<string>
  {
    ["Content-Type: text/plain", "Content-Length: " + DecimalString(Utf16Length(body))]
  }

  /** The header text the handler chooses: the text headers and a blank line, or the blank line alone. */
  function Headers(path: string, body: string): string
  {
    if IsTextRoute(path) then Lines(TextHeaders(body)) + CRLF else CRLF
  }

  /** `statusLine + headers + body`. */
  function Response(path: string, userAgent: string): string
  {
    var body := Body(path, userAgent);
    StatusText(path) + CRLF + Headers(path, body) + body
  }

  /** The whole exchange on one connection. */
  function Exchange(input: seq<string>): Outcome
  {
    if input == [] || input[0] == "" then Closed
    else
      match RequestPath(input[0])
      case None => Aborted
      case Some(path) => Responded(Response(path, LastUserAgent(HeaderBlock(input[1..]))))
  }

  /** The scan's stopping point determines the header block. */
  lemma {:induction false} HeaderBlockUnique(lines: seq<string>, n: nat)
    requires n <= |lines|
    requires forall i :: 0 <= i < n ==> lines[i] != ""
    requires n == |lines| || lines[n] == ""
    ensures HeaderBlock(lines) == lines[..n]
    decreases n
  {
    if n > 0 {
      assert lines[0] != "";
      HeaderBlockUnique(lines[1..], n - 1);
      assert lines[..n] == [lines[0]] + lines[1..][..n - 1];
    }
  }

  /** The statements of the accept loop's body, in the source's order. */
  method HandleConnection(input: seq<string>) returns (outcome: Outcome)
    ensures outcome == Exchange(input)
  {
    if |input| == 0 || input[0] == "" {
      return Closed;
    }
    var requestLine := input[0];
    var userAgent, count := ScanHeaders(input[1..]);
    HeaderBlockUnique(input[1..], count);
    var tokens := Split(requestLine, SpaceRun);
    if |tokens| < 2 {
      return Aborted;
    }
    var path := tokens[1];
    var body := Body(path, userAgent);
    outcome := Responded(StatusText(path) + CRLF + Headers(path, body) + body);
  }
}
