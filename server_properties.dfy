/**
 * What the request pipeline promises: the gate on the request line, the
 * header scan's last-match rule and stopping point, the request target,
 * the route-to-status mapping, the echo body, and the shape of every
 * response as an HTTP client reads it back.
 */
module ServerProperties {
  import opened Options
  import opened Sequences
  import opened JavaStrings
  import opened HttpMessage
  import opened Server

  // ---- request-line gate and request target ------------------------------

  /** A missing or empty request line gets no response; any other line gets a response or aborts. */
  lemma ClosedExactlyWithoutRequestLine(input: seq<string>)
    ensures Exchange(input).Closed? <==> input == [] || input[0] == ""
  {
  }

  /** The request line is split on `\s+` and element 1 is the target; fewer than two elements abort the server. */
  lemma AbortedExactlyWithoutTarget(input: seq<string>)
    ensures Exchange(input).Aborted? <==>
      input != [] && input[0] != "" && |Split(input[0], SpaceRun)| < 2
  {
  }

  /** A request line without whitespace (`GET`, say) is a single token, so the handler throws. */
  lemma SingleTokenAborts(input: seq<string>)
    requires input != [] && input[0] != "" && !HasDelimiter(input[0], SpaceRun)
    ensures Exchange(input) == Aborted
  {
  }

  /** In `METHOD SP TARGET ...` the target is the second whitespace-separated token. */
  lemma RequestTarget(verb: string, target: string, tail: string)
    requires verb != [] && target != []
    requires forall i :: 0 <= i < |verb| ==> !IsSpace(verb[i])
    requires forall i :: 0 <= i < |target| ==> !IsSpace(target[i])
    requires tail == [] || IsSpace(tail[0])
    ensures RequestPath(verb + " " + target + tail) == Some(target)
  {
    var u := target + tail;
    var line := verb + (" " + u);
    assert verb + " " + target + tail == line;
    assert u[0] == target[0];
    SecondPiece(verb, u, target, tail);
    SplitKeepsNonEmptyPiece(line, SpaceRun, 1);
  }

  /**
   * A request line that starts with whitespace splits into a leading empty
   * element and its first word, so that word is taken as the target.
   */
  lemma LeadingBlankTarget(blank: string, word: string, tail: string)
    requires blank != [] && forall i :: 0 <= i < |blank| ==> IsSpace(blank[i])
    requires word != [] && forall i :: 0 <= i < |word| ==> !IsSpace(word[i])
    requires tail == [] || IsSpace(tail[0])
    ensures RequestPath(blank + word + tail) == Some(word)
  {
    var u, rest := word + tail, blank[1..];
    var line := [blank[0]] + (rest + u);
    assert blank + word + tail == line;
    assert u[0] == word[0];
    LeadingBlankPieces(blank[0], rest, u, word, tail);
    SplitKeepsNonEmptyPiece(line, SpaceRun, 1);
  }

  /** The pieces of `c rest word tail`, with `c rest` whitespace, are an empty string, then `word`. */
  lemma LeadingBlankPieces(c: char, rest: string, u: string, word: string, tail: string)
    requires IsSpace(c) && forall i :: 0 <= i < |rest| ==> IsSpace(rest[i])
    requires forall i :: 0 <= i < |word| ==> !IsSpace(word[i])
    requires tail == [] || IsSpace(tail[0])
    requires u == word + tail && (u == [] || !IsSpace(u[0]))
    ensures var p := Pieces([c] + (rest + u), SpaceRun); |p| >= 2 && p[0] == "" && p[1] == word
  {
    var line := [c] + (rest + u);
    assert line[1..] == rest + u;
    PiecesAtDelimiter(line, SpaceRun);
    AfterBlankRun(rest, u);
    FirstPiece(word, tail, SpaceRun);
  }

  /** A `\s+` match swallows the whole whitespace run, up to the next non-space character. */
  lemma AfterBlankRun(blank: string, u: string)
    requires forall i :: 0 <= i < |blank| ==> IsSpace(blank[i])
    requires u == [] || !IsSpace(u[0])
    ensures AfterMatch(blank + u, SpaceRun) == u
  {
    DropWhileAfterPrefix(IsSpace, blank, u);
    AfterMatchOfWord(u, SpaceRun);
  }

  /** The pieces of `verb SP target tail` start with `verb` and `target`. */
  lemma SecondPiece(verb: string, u: string, target: string, tail: string)
    requires forall i :: 0 <= i < |verb| ==> !IsSpace(verb[i])
    requires forall i :: 0 <= i < |target| ==> !IsSpace(target[i])
    requires tail == [] || IsSpace(tail[0])
    requires u == target + tail && (u == [] || !IsSpace(u[0]))
    ensures var p := Pieces(verb + (" " + u), SpaceRun); |p| >= 2 && p[1] == target
  {
    var t := " " + u;
    assert t[1..] == u;
    PiecesOfWord(verb, t, SpaceRun);
    AfterMatchOfWord(u, SpaceRun);
    FirstPiece(target, tail, SpaceRun);
  }

  // ---- header scan -------------------------------------------------------

  /** Without any `User-Agent` header in the block the user agent is the empty string. */
  lemma {:induction false} UserAgentDefault(block: seq<string>)
    requires forall i :: 0 <= i < |block| ==> !IsUserAgentLine(block[i])
    ensures LastUserAgent(block) == ""
    decreases |block|
  {
    if block != [] {
      UserAgentDefault(block[..|block| - 1]);
    }
  }

  /** The value of the last `User-Agent` header in the block wins over every earlier one. */
  lemma {:induction false} UserAgentLastMatchWins(block: seq<string>, k: nat)
    requires k < |block| && IsUserAgentLine(block[k])
    requires forall j :: k < j < |block| ==> !IsUserAgentLine(block[j])
    ensures LastUserAgent(block) == UserAgentValue(block[k])
    decreases |block|
  {
    if k < |block| - 1 {
      UserAgentLastMatchWins(block[..|block| - 1], k);
    }
  }

  /** The header name is matched without regard to case, and the value is trimmed. */
  lemma UserAgentHeader(name: string, value: string)
    requires |name| == |UserAgentKey| && ToLower(name) == UserAgentKey
    ensures IsUserAgentLine(name + value)
    ensures UserAgentValue(name + value) == Trim(value)
  {
    assert ToLower(name + value)[..|UserAgentKey|] == ToLower(name);
    assert (name + value)[|UserAgentKey|..] == value;
  }

  /**
   * The usual form `Name: value`: blanks after the colon are skipped, and a
   * value without blank ends is taken as it stands.
   */
  lemma UserAgentHeaderTrimmed(name: string, blank: string, value: string)
    requires |name| == |UserAgentKey| && ToLower(name) == UserAgentKey
    requires forall i :: 0 <= i < |blank| ==> IsTrimmable(blank[i])
    requires value == [] || (!IsTrimmable(value[0]) && !IsTrimmable(value[|value| - 1]))
    ensures IsUserAgentLine(name + blank + value)
    ensures UserAgentValue(name + blank + value) == value
  {
    assert name + blank + value == name + (blank + value);
    UserAgentHeader(name, blank + value);
    TrimIgnoresLeading(blank, value);
    TrimOfTrimmed(value);
  }

  /** Lines after the first empty header line are never read, so they cannot change the outcome. */
  lemma LinesAfterBlankIgnored(input: seq<string>, k: nat, later: seq<string>)
    requires 1 <= k < |input| && input[k] == ""
    requires forall j :: 1 <= j < k ==> input[j] != ""
    ensures Exchange(input[..k + 1] + later) == Exchange(input)
  {
    var changed := input[..k + 1] + later;
    assert changed[0] == input[0];
    assert changed[1..][..k - 1] == input[1..][..k - 1];
    HeaderBlockUnique(input[1..], k - 1);
    HeaderBlockUnique(changed[1..], k - 1);
  }

  // ---- routing and bodies ------------------------------------------------

  /**
   * The echo body is the text after `/echo/` up to the next `/` or the end:
   * element 2 of Java's `split("/")`, where the trailing empty strings that
   * `split` drops are exactly the cases in which that text is empty.
   */
  lemma EchoBodyIsThirdSegment(path: string)
    requires StartsWith(path, EchoPrefix)
    ensures var rest, b := path[|EchoPrefix|..], EchoBody(path);
      && |b| <= |rest| && b == rest[..|b|]
      && '/' !in b
      && (|b| == |rest| || rest[|b|] == '/')
  {
    var d := Literal('/');
    var rest := path[|EchoPrefix|..];
    assert path == "/" + ("echo" + ("/" + rest));
    var q := Pieces(rest, d);
    PiecesOfWord("echo", "/" + rest, d);
    assert ("/" + rest)[1..] == rest;
    assert Pieces("echo" + ("/" + rest), d) == ["echo"] + q;
    var p := Pieces(path, d);
    assert p == [""] + (["echo"] + q);
    assert p[2] == q[0];
    assert IsDelimiter(d, path[0]);
    SplitKeepsPieces(path, d);
    var b := EchoBody(path);
    assert b == q[0];
    forall i | 0 <= i < |b| ensures b[i] != '/' {
      assert !IsDelimiter(d, q[0][i]);
    }
  }

  /** `/echo/<s>` with no `/` in `s` echoes `s` exactly. */
  lemma EchoOfSegment(s: string)
    requires '/' !in s
    ensures EchoBody(EchoPrefix + s) == s
  {
    var path := EchoPrefix + s;
    assert StartsWith(path, EchoPrefix);
    assert path[|EchoPrefix|..] == s;
    EchoBodyIsThirdSegment(path);
  }

  /** `/echo/` has only two elements after the split, so its body is empty. */
  lemma EchoOfEmpty()
    ensures EchoBody("/echo/") == ""
  {
    var path := "/echo/";
    assert StartsWith(path, EchoPrefix);
    EchoBodyIsThirdSegment(path);
    assert path[|EchoPrefix|..] == "";
  }

  /** `/echo/<s>/<t>` with no `/` in `s` echoes `s`: later segments are ignored. */
  lemma EchoOfSegments(s: string, t: string)
    requires '/' !in s
    ensures EchoBody(EchoPrefix + s + "/" + t) == s
  {
    var path := EchoPrefix + s + "/" + t;
    var rest := s + "/" + t;
    assert path == EchoPrefix + rest;
    assert StartsWith(path, EchoPrefix);
    assert path[|EchoPrefix|..] == rest;
    EchoBodyIsThirdSegment(path);
    var b := EchoBody(path);
    assert rest[|s|] == '/';
    // `/` first occurs in `rest` right after `s`, and `b` is the `/`-free prefix
    assert forall i :: 0 <= i < |s| ==> rest[i] != '/';
    assert forall i :: 0 <= i < |b| ==> rest[i] != '/';
    assert |b| == |s|;
    assert rest[..|s|] == s;
  }

  /** `/echo/a/b` echoes only its third segment `a`. */
  lemma EchoOfNested()
    ensures EchoBody("/echo/a/b") == "a"
  {
    assert "/echo/a/b" == EchoPrefix + "a" + "/" + "b";
    EchoOfSegments("a", "b");
  }

  /** `/echo//x` has an empty third segment, so its body is empty. */
  lemma EchoOfDoubleSlash()
    ensures EchoBody("/echo//x") == ""
  {
    assert "/echo//x" == EchoPrefix + "" + "/" + "x";
    EchoOfSegments("", "x");
  }

  /** The only known route without a text body is `/`. */
  lemma RootIsTheOnlyPlainKnownRoute(path: string)
    ensures IsKnownRoute(path) && !IsTextRoute(path) <==> path == "/"
  {
  }

  // ---- response format ---------------------------------------------------

  lemma HeadLineWithoutCr(line: string)
    requires line != [] && CrFree(line)
    ensures IsHeadLine(line)
  {
  }

  /** No line of a response head is empty or holds a carriage return. */
  lemma HeadLinesCrFree(path: string, body: string)
    ensures var lines := [StatusText(path)] + (if IsTextRoute(path) then TextHeaders(body) else []);
      forall k :: 0 <= k < |lines| ==> lines[k] != "" && CrFree(lines[k])
  {
    assert CrFree(StatusText(path));
    var h := TextHeaders(body);
    assert CrFree(h[0]);
    var digits := DecimalString(Utf16Length(body));
    forall i | 0 <= i < |h[1]| ensures h[1][i] != '\r' {
      if i >= 16 {
        assert h[1][i] == digits[i - 16];
      }
    }
  }

  /** The handler's string concatenation is the rendering of a status line, header lines and body. */
  lemma ResponseIsRendered(path: string, userAgent: string)
    ensures var body := Body(path, userAgent);
      Response(path, userAgent) ==
        Render(Message(StatusText(path), if IsTextRoute(path) then TextHeaders(body) else [], body))
  {
    var body := Body(path, userAgent);
    var status := StatusText(path);
    var headers := if IsTextRoute(path) then TextHeaders(body) else [];
    var head := status + CRLF;
    assert ([status] + headers)[1..] == headers;
    assert Lines([status] + headers) == head + Lines(headers);
    if IsTextRoute(path) {
      AppendAssoc(head, Lines(headers), CRLF);
    } else {
      assert head + Lines(headers) == head;
    }
  }

  /**
   * A client reading the response gets the status line, then the two text
   * headers on the echo and user-agent routes and no header otherwise, and
   * after the blank line exactly the body.
   */
  lemma ResponseWireFormat(path: string, userAgent: string)
    ensures var body := Body(path, userAgent);
      ParseMessage(Response(path, userAgent)) ==
        Some(Message(StatusText(path), if IsTextRoute(path) then TextHeaders(body) else [], body))
  {
    var body := Body(path, userAgent);
    var lines := [StatusText(path)] + (if IsTextRoute(path) then TextHeaders(body) else []);
    HeadLinesCrFree(path, body);
    forall k | 0 <= k < |lines| ensures IsHeadLine(lines[k]) {
      HeadLineWithoutCr(lines[k]);
    }
    ResponseIsRendered(path, userAgent);
    ParseRender(Message(StatusText(path), lines[1..], body));
  }

  /** The first CRLF CRLF of every response ends its head, and the text after it is exactly the body. */
  lemma BodyFollowsFirstBlankLine(path: string, userAgent: string)
    ensures var r, body := Response(path, userAgent), Body(path, userAgent);
      var n := |r| - |body| - 4;
      && BlankLineAt(r, n) && r[n + 4..] == body
      && forall i :: 0 <= i < n ==> !BlankLineAt(r, i)
  {
    var body := Body(path, userAgent);
    var lines := [StatusText(path)] + (if IsTextRoute(path) then TextHeaders(body) else []);
    HeadLinesCrFree(path, body);
    ResponseIsRendered(path, userAgent);
    assert Response(path, userAgent) == Lines(lines) + CRLF + body;
    FirstBlankLine(lines, body);
  }

  /** Every response starts with `HTTP/1.1 `; the status is 200 exactly on the known routes, 404 otherwise. */
  lemma ResponseStatus(path: string, userAgent: string)
    ensures StartsWith(Response(path, userAgent), "HTTP/1.1 ")
    ensures var m := ParseMessage(Response(path, userAgent));
      && m.Some?
      && (m.value.statusLine == "HTTP/1.1 200 OK" <==> IsKnownRoute(path))
      && (m.value.statusLine == "HTTP/1.1 404 Not Found" <==> !IsKnownRoute(path))
  {
    var r, status := Response(path, userAgent), StatusText(path);
    assert StartsWith(r, "HTTP/1.1 ") by {
      assert r[..|status|] == status;
      assert status[..9] == "HTTP/1.1 ";
      assert r[..9] == status[..9];
    }
    ResponseWireFormat(path, userAgent);
  }

  /** The reader finds the content type in the first text header and the length in the second. */
  lemma TextHeaderValues(body: string)
    ensures HeaderValue(TextHeaders(body), "Content-Type") == Some("text/plain")
    ensures HeaderValue(TextHeaders(body), "Content-Length") == Some(DecimalString(Utf16Length(body)))
  {
    var h := TextHeaders(body);
    var key := "Content-Length" + ": ";
    assert |key| == 16;
    assert h[0][8] == 'T' && key[8] == 'L';
    assert h[0][..16] != key;
    var digits := DecimalString(Utf16Length(body));
    assert h[1] == "Content-Length: " + digits;
    assert h[1][..16] == key;
    assert h[1][16..] == digits;
    assert h[1..] == [h[1]];
    var typeKey := "Content-Type" + ": ";
    assert h[0][..14] == typeKey && h[0][14..] == "text/plain";
  }

  /** On the echo and user-agent routes the declared `Content-Length` is the body's `length()`. */
  lemma DeclaredLengthMatchesBody(path: string, userAgent: string)
    requires IsTextRoute(path)
    ensures var m := ParseMessage(Response(path, userAgent));
      && m.Some?
      && HeaderValue(m.value.headers, "Content-Type") == Some("text/plain")
      && DeclaredLength(m.value) == Some(Utf16Length(m.value.body))
  {
    ResponseWireFormat(path, userAgent);
    var body := Body(path, userAgent);
    var m := Message(StatusText(path), TextHeaders(body), body);
    assert ParseMessage(Response(path, userAgent)) == Some(m);
    TextHeaderValues(body);
    DecimalRoundTrip(Utf16Length(body));
    assert DeclaredLength(m) == Some(Utf16Length(body));
  }

  /** Every other route answers with the status line, a blank line and nothing else. */
  lemma PlainResponse(path: string, userAgent: string)
    requires !IsTextRoute(path)
    ensures Response(path, userAgent) == StatusText(path) + CRLF + CRLF
  {
  }

  lemma TextHeaderLines(body: string)
    ensures Lines(TextHeaders(body)) ==
      "Content-Type: text/plain" + CRLF + ("Content-Length: " + DecimalString(Utf16Length(body))) + CRLF
  {
    var h := TextHeaders(body);
    assert h[1..] == [h[1]] && [h[1]][1..] == [];
    assert Lines([h[1]]) == h[1] + CRLF;
  }

  /** The echo and user-agent routes answer with the status line, the two text headers, a blank line and the body. */
  lemma TextResponse(path: string, userAgent: string)
    requires IsTextRoute(path)
    ensures var body := Body(path, userAgent);
      Response(path, userAgent) ==
        StatusText(path) + CRLF + "Content-Type: text/plain" + CRLF
        + "Content-Length: " + DecimalString(Utf16Length(body)) + CRLF + CRLF + body
  {
    var body := Body(path, userAgent);
    var status, length := StatusText(path), "Content-Length: " + DecimalString(Utf16Length(body));
    TextHeaderLines(body);
    Regroup(status, "Content-Type: text/plain", "Content-Length: ", DecimalString(Utf16Length(body)), body);
  }

  lemma Regroup(status: string, contentType: string, name: string, digits: string, body: string)
    ensures status + CRLF + (contentType + CRLF + (name + digits) + CRLF + CRLF) + body
      == status + CRLF + contentType + CRLF + name + digits + CRLF + CRLF + body
  {
  }

  // ---- whole exchanges ---------------------------------------------------

  /** A request line `METHOD SP TARGET ...` is answered for TARGET, with the user agent of the header block. */
  lemma ExchangeOfRequestLine(verb: string, target: string, tail: string, headers: seq<string>)
    requires verb != [] && target != []
    requires forall i :: 0 <= i < |verb| ==> !IsSpace(verb[i])
    requires forall i :: 0 <= i < |target| ==> !IsSpace(target[i])
    requires tail == [] || IsSpace(tail[0])
    ensures Exchange([verb + " " + target + tail] + headers)
      == Responded(Response(target, LastUserAgent(HeaderBlock(headers))))
  {
    var input := [verb + " " + target + tail] + headers;
    RequestTarget(verb, target, tail);
    assert input[0] != "" && input[1..] == headers;
  }

  /**
   * The body a client reads from any response the server sends: on `/echo/`
   * targets the text after `/echo/` up to the next `/` or the end, on other
   * `/user-agent` targets the user agent of the header block, and nothing
   * on every other target.
   */
  lemma ExchangeBody(input: seq<string>)
    ensures Exchange(input).Responded? ==> ParseMessage(Exchange(input).response).Some?
    ensures Exchange(input).Responded? ==>
      var p, m := RequestPath(input[0]).value, ParseMessage(Exchange(input).response);
      StartsWith(p, EchoPrefix) ==>
        var b, rest := m.value.body, p[|EchoPrefix|..];
        && |b| <= |rest| && b == rest[..|b|]
        && '/' !in b
        && (|b| == |rest| || rest[|b|] == '/')
    ensures Exchange(input).Responded? ==>
      var p, m := RequestPath(input[0]).value, ParseMessage(Exchange(input).response);
      !StartsWith(p, EchoPrefix) && StartsWith(p, UserAgentPrefix) ==>
        m.value.body == LastUserAgent(HeaderBlock(input[1..]))
    ensures Exchange(input).Responded? ==>
      var p, m := RequestPath(input[0]).value, ParseMessage(Exchange(input).response);
      !IsTextRoute(p) ==> m.value.body == ""
  {
    if Exchange(input).Responded? {
      var p, userAgent := RequestPath(input[0]).value, LastUserAgent(HeaderBlock(input[1..]));
      assert Exchange(input).response == Response(p, userAgent);
      ResponseWireFormat(p, userAgent);
      if StartsWith(p, EchoPrefix) {
        EchoBodyIsThirdSegment(p);
      }
    }
  }

  /** `/index.html` is not a known route: 404, no headers, no body. */
  lemma NotFoundResponse(userAgent: string)
    ensures Response("/index.html", userAgent) == "HTTP/1.1 404 Not Found" + CRLF + CRLF
  {
    var path := "/index.html";
    assert path[..6][1] != EchoPrefix[1];
    assert path[..11][1] != UserAgentPrefix[1];
    PlainResponse(path, userAgent);
  }

  /** `/echo/abc` is answered with the text `abc` whatever the user agent. */
  lemma EchoResponse(userAgent: string)
    ensures Response("/echo/abc", userAgent)
      == "HTTP/1.1 200 OK" + CRLF + "Content-Type: text/plain" + CRLF + "Content-Length: " + "3" + CRLF + CRLF + "abc"
  {
    var path := "/echo/abc";
    assert StartsWith(path, EchoPrefix) && path == EchoPrefix + "abc";
    EchoOfSegment("abc");
    var body := Body(path, userAgent);
    assert body == "abc";
    assert StatusText(path) == "HTTP/1.1 200 OK";
    assert DecimalString(Utf16Length(body)) == "3" by {
      assert Utf16Length("abc") == 3;
    }
    TextResponse(path, userAgent);
  }

  /** `/user-agent` reflects the user agent `foo/1.0`. */
  lemma UserAgentResponse()
    ensures Response("/user-agent", "foo/1.0")
      == "HTTP/1.1 200 OK" + CRLF + "Content-Type: text/plain" + CRLF + "Content-Length: " + "7" + CRLF + CRLF + "foo/1.0"
  {
    var path := "/user-agent";
    assert path[..6][1] != EchoPrefix[1];
    assert path[..11] == UserAgentPrefix;
    assert Body(path, "foo/1.0") == "foo/1.0";
    assert StatusText(path) == "HTTP/1.1 200 OK";
    assert DecimalString(Utf16Length("foo/1.0")) == "7" by {
      assert Utf16Length("foo/1.0") == 7;
    }
    TextResponse(path, "foo/1.0");
  }

  /** `User-Agent: foo/1.0` is a user-agent line with value `foo/1.0`. */
  lemma FooUserAgentLine()
    ensures IsUserAgentLine("User-Agent: foo/1.0")
    ensures UserAgentValue("User-Agent: foo/1.0") == "foo/1.0"
  {
    assert "User-Agent: foo/1.0" == "User-Agent:" + " " + "foo/1.0";
    assert ToLower("User-Agent:") == UserAgentKey;
    UserAgentHeaderTrimmed("User-Agent:", " ", "foo/1.0");
  }

  /** The scan of `Host: ...`, `User-Agent: foo/1.0`, blank line yields `foo/1.0`. */
  lemma ScannedUserAgent(headers: seq<string>)
    requires headers == ["Host: localhost:4221", "User-Agent: foo/1.0", ""]
    ensures LastUserAgent(HeaderBlock(headers)) == "foo/1.0"
  {
    HeaderBlockUnique(headers, 2);
    var block := headers[..2];
    assert block[1] == "User-Agent: foo/1.0";
    FooUserAgentLine();
  }

  /** `GET /user-agent` with `User-Agent: foo/1.0` reflects `foo/1.0`. */
  lemma UserAgentExchange(input: seq<string>)
    requires input == ["GET /user-agent HTTP/1.1", "Host: localhost:4221", "User-Agent: foo/1.0", ""]
    ensures Exchange(input)
      == Responded("HTTP/1.1 200 OK" + CRLF + "Content-Type: text/plain" + CRLF + "Content-Length: " + "7" + CRLF + CRLF + "foo/1.0")
  {
    var path, headers := "/user-agent", input[1..];
    assert input[0] == "GET" + " " + path + " HTTP/1.1";
    assert input == [input[0]] + headers;
    ExchangeOfRequestLine("GET", path, " HTTP/1.1", headers);
    ScannedUserAgent(headers);
    UserAgentResponse();
  }

  /** `GET /echo/abc` echoes `abc`. */
  lemma EchoExchange(input: seq<string>)
    requires input == ["GET /echo/abc HTTP/1.1", ""]
    ensures Exchange(input)
      == Responded("HTTP/1.1 200 OK" + CRLF + "Content-Type: text/plain" + CRLF + "Content-Length: " + "3" + CRLF + CRLF + "abc")
  {
    var path, headers := "/echo/abc", input[1..];
    assert input[0] == "GET" + " " + path + " HTTP/1.1";
    assert input == [input[0]] + headers;
    ExchangeOfRequestLine("GET", path, " HTTP/1.1", headers);
    EchoResponse(LastUserAgent(HeaderBlock(headers)));
  }

  /** An unknown target is answered 404 with an empty header block and body. */
  lemma NotFoundExchange(input: seq<string>)
    requires input == ["GET /index.html HTTP/1.1", ""]
    ensures Exchange(input) == Responded("HTTP/1.1 404 Not Found" + CRLF + CRLF)
  {
    var path, headers := "/index.html", input[1..];
    assert input[0] == "GET" + " " + path + " HTTP/1.1";
    assert input == [input[0]] + headers;
    ExchangeOfRequestLine("GET", path, " HTTP/1.1", headers);
    NotFoundResponse(LastUserAgent(HeaderBlock(headers)));
  }
}
