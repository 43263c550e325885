/**
 * The HTTP/1.1 message layout the server writes, and a reader for it: a
 * status line and header lines, each terminated by CRLF, a blank line, then
 * the body. The reader is what a client does with a response; the
 * server's properties state what it gets back from each one.
 */
module HttpMessage {
  import opened Options
  import opened JavaStrings

  /** The HTTP line terminator (the handler's `CRLF` constant). */
  const CRLF: string := "\r\n"

  datatype Message = Message(statusLine: string, headers: seq<string>, body: string)

  predicate HasCrlf(s: string)
  {
    exists i :: 0 <= i < |s| - 1 && s[i] == '\r' && s[i + 1] == '\n'
  }

  /** A line that can stand in a message head: not blank, no line terminator inside. */
  predicate IsHeadLine(line: string)
  {
    line != "" && !HasCrlf(line)
  }

  /** The text before the first CRLF of `s`, and the text after it. */
  function NextLine(s: string): (r: Option<(string, string)>)
    ensures r.None? ==> !HasCrlf(s)
    ensures r.Some? ==> s == r.value.0 + CRLF + r.value.1 && !HasCrlf(r.value.0)
    decreases |s|
  {
    if |s| < 2 then None
    else if s[0] == '\r' && s[1] == '\n' then Some(("", s[2..]))
    else
      match NextLine(s[1..])
      case None =>
        assert forall i :: 1 <= i < |s| ==> s[i] == s[1..][i - 1];
        None
      case Some((line, rest)) =>
        assert forall i :: 1 <= i < |s| ==> s[i] == s[1..][i - 1];
        Some(([s[0]] + line, rest))
  }

  /** Lines up to the first blank one, and everything after that blank line. */
  function ReadHead(s: string): Option<(seq<string>, string)>
    decreases |s|
  {
    match NextLine(s)
    case None => None
    case Some((line, rest)) =>
      if line == "" then Some(([], rest))
      else
        match ReadHead(rest)
        case None => None
        case Some((lines, body)) => Some(([line] + lines, body))
  }

  /** How a client reads a response: the first line is the status line. */
  function ParseMessage(s: string): Option<Message>
  {
    match ReadHead(s)
    case None => None
    case Some((lines, body)) =>
      if lines == [] then None else Some(Message(lines[0], lines[1..], body))
  }

  /** Each line followed by CRLF. */
  function Lines(lines: seq<string>): string
  {
    if lines == [] then "" else lines[0] + CRLF + Lines(lines[1..])
  }

  /** The wire form of a message. */
  function Render(m: Message): string
  {
    Lines([m.statusLine] + m.headers) + CRLF + m.body
  }

  /** The value of the first header line of the form `<name>: <value>`. */
  function HeaderValue(headers: seq<string>, name: string): Option<string>
  {
    if headers == [] then None
    else if StartsWith(headers[0], name + ": ") then Some(headers[0][|name| + 2..])
    else HeaderValue(headers[1..], name)
  }

  /** The body length a message declares in its `Content-Length` header. */
  function DeclaredLength(m: Message): Option<nat>
  {
    match HeaderValue(m.headers, "Content-Length")
    case None => None
    case Some(v) => ParseDecimal(v)
  }

  /** A line without CRLF inside is read back whole. */
  lemma {:induction false} NextLineOfLine(line: string, rest: string)
    requires !HasCrlf(line)
    ensures NextLine(line + CRLF + rest) == Some((line, rest))
    decreases |line|
  {
    var s := line + CRLF + rest;
    if line == [] {
      assert s == CRLF + rest;
    } else {
      if |line| > 1 {
        assert !(line[0] == '\r' && line[1] == '\n');
      }
      assert s[1..] == line[1..] + CRLF + rest;
      assert !HasCrlf(line[1..]) by {
        forall i | 0 <= i < |line[1..]| - 1
          ensures !(line[1..][i] == '\r' && line[1..][i + 1] == '\n')
        {
          assert line[1..][i] == line[i + 1] && line[1..][i + 1] == line[i + 2];
        }
      }
      NextLineOfLine(line[1..], rest);
      assert [line[0]] + line[1..] == line;
    }
  }

  /** Head lines followed by a blank line are read back, and what follows is the body. */
  lemma {:induction false} ReadHeadOfLines(lines: seq<string>, body: string)
    requires forall k :: 0 <= k < |lines| ==> IsHeadLine(lines[k])
    ensures ReadHead(Lines(lines) + CRLF + body) == Some((lines, body))
    decreases |lines|
  {
    if lines == [] {
      NextLineOfLine("", body);
      assert "" + CRLF + body == Lines(lines) + CRLF + body;
    } else {
      var rest := Lines(lines[1..]) + CRLF + body;
      assert Lines(lines) + CRLF + body == lines[0] + CRLF + rest;
      NextLineOfLine(lines[0], rest);
      ReadHeadOfLines(lines[1..], body);
      assert [lines[0]] + lines[1..] == lines;
    }
  }

  /** `s` holds CRLF CRLF, the end of a message head, at index `i`. */
  predicate BlankLineAt(s: string, i: int)
  {
    0 <= i && i + 4 <= |s| && s[i] == '\r' && s[i + 1] == '\n' && s[i + 2] == '\r' && s[i + 3] == '\n'
  }

  predicate CrFree(line: string)
  {
    forall i :: 0 <= i < |line| ==> line[i] != '\r'
  }

  /**
   * When no head line is empty or holds a carriage return, the first CRLF
   * CRLF of the rendered text is the one that ends the head, and the text
   * after it is exactly the body.
   */
  lemma {:induction false} FirstBlankLine(lines: seq<string>, body: string)
    requires lines != []
    requires forall k :: 0 <= k < |lines| ==> lines[k] != "" && CrFree(lines[k])
    ensures var s, n := Lines(lines) + CRLF + body, |Lines(lines)| - 2;
      && BlankLineAt(s, n) && s[n + 4..] == body
      && forall i :: 0 <= i < n ==> !BlankLineAt(s, i)
    decreases |lines|
  {
    var l, rest := lines[0], lines[1..];
    if rest == [] {
      assert Lines(lines) + CRLF + body == l + CRLF + (CRLF + body);
      BlankLineAfterLast(l, body);
    } else {
      var t := Lines(rest) + CRLF + body;
      assert Lines(lines) + CRLF + body == l + CRLF + t;
      FirstBlankLine(rest, body);
      assert rest[0] != "" && CrFree(rest[0]);
      assert t[0] == rest[0][0];
      BlankLineAfterLine(l, t, |Lines(rest)| - 2);
    }
  }

  lemma BlankLineAfterLast(l: string, body: string)
    requires CrFree(l)
    ensures var s := l + CRLF + (CRLF + body);
      && BlankLineAt(s, |l|) && s[|l| + 4..] == body
      && forall i :: 0 <= i < |l| ==> !BlankLineAt(s, i)
  {
    var s := l + CRLF + (CRLF + body);
    assert s[|l| + 4..] == body;
    forall i | 0 <= i < |l| ensures !BlankLineAt(s, i) {
      assert s[i] == l[i];
    }
  }

  /** A CR-free line and its CRLF hold no blank line, so the first one is the first one of the rest. */
  lemma BlankLineAfterLine(l: string, t: string, m: int)
    requires CrFree(l) && t != [] && t[0] != '\r'
    requires BlankLineAt(t, m) && forall j :: 0 <= j < m ==> !BlankLineAt(t, j)
    ensures var s, n := l + CRLF + t, |l| + 2 + m;
      && BlankLineAt(s, n) && s[n + 4..] == t[m + 4..]
      && forall i :: 0 <= i < n ==> !BlankLineAt(s, i)
  {
    var s, n := l + CRLF + t, |l| + 2 + m;
    assert forall j :: 0 <= j < |t| ==> s[|l| + 2 + j] == t[j];
    assert s[n + 4..] == t[m + 4..];
    forall i | 0 <= i < n ensures !BlankLineAt(s, i) {
      if i < |l| {
        assert s[i] == l[i];
      } else if i == |l| {
        assert s[i + 2] == t[0];
      } else if i > |l| + 1 {
        assert !BlankLineAt(t, i - |l| - 2);
      }
    }
  }

  /** Reading a rendered message gives back its status line, headers and body. */
  lemma ParseRender(m: Message)
    requires IsHeadLine(m.statusLine)
    requires forall k :: 0 <= k < |m.headers| ==> IsHeadLine(m.headers[k])
    ensures ParseMessage(Render(m)) == Some(m)
  {
    var lines := [m.statusLine] + m.headers;
    ReadHeadOfLines(lines, m.body);
    assert lines[1..] == m.headers;
  }
}
