/**
  `HttpRequest` and `HttpResponse` (src/http_message.cc, src/include/http_message.hh) as objects whose
  fields are set one by one, also when parsing ends with an exception half-way; proved against
  `HttpMessageSpec`.
 */
module HttpMessages {
  import opened Common
  import opened HttpMessageSpec

  /** The header that a map has in front of all others. */
  method LeastKey(keys: set<string>) returns (k: string)
    requires keys != {}
    ensures k in keys && forall k' :: k' in keys && k' != k ==> Before(k, k')
  {
    k :| k in keys;
    var rest := keys - {k};
    while rest != {}
      invariant k in keys && rest <= keys && k !in rest
      invariant forall k' :: k' in keys - rest && k' != k ==> Before(k, k')
      decreases |rest|
    {
      var next :| next in rest;
      BeforeIsTotal(k, next);
      ghost var seen := keys - rest;
      rest := rest - {next};
      if Before(next, k) {
        forall k' | k' in seen && k' != k ensures Before(next, k') {
          BeforeIsTransitive(next, k, k');
        }
        k := next;
      }
    }
  }

  /** The loop of the printers over the header map: every header once, in the order of the keys. */
  method PrintHeaderLines(headers: map<string, string>, sep: string) returns (s: string)
    requires sep == ": " || sep == " "
    ensures exists hs :: Iterates(hs, headers) && s == PrintLines(if sep == ": " then ColonLines(hs) else SpaceLines(hs))
  {
    s := "";
    ghost var hs: seq<(string, string)> := [];
    var rest := headers.Keys;
    while rest != {}
      invariant ListsBut(hs, headers, rest) && InKeyOrder(hs)
      invariant forall i, k :: 0 <= i < |hs| && k in rest ==> Before(hs[i].0, k)
      invariant s == PrintLines(if sep == ": " then ColonLines(hs) else SpaceLines(hs))
      decreases |rest|
    {
      var k := LeastKey(rest);
      assert k in headers;
      IterateOne(hs, headers, rest, k);
      AppendLine(hs, (k, headers[k]));
      hide ListsBut, PrintLines, ColonLines, SpaceLines, Before, InKeyOrder;
      s := s + ((k + (sep + headers[k])) + CRLF);
      hs := hs + [(k, headers[k])];
      rest := rest - {k};
    }
    assert Iterates(hs, headers);
  }

  lemma {:induction false} PrintLinesAppend(lines: seq<string>, line: string)
    ensures PrintLines(lines + [line]) == PrintLines(lines) + (line + CRLF)
  {
    if lines == [] {
      assert PrintLines([]) + (line + CRLF) == line + CRLF;
      assert lines + [line] == [line] && [line][1..] == [] && CRLF + "" == CRLF;
    } else {
      PrintLinesAppend(lines[1..], line);
      assert (lines + [line])[1..] == lines[1..] + [line];
    }
  }

  lemma AppendLine(hs: seq<(string, string)>, h: (string, string))
    ensures PrintLines(ColonLines(hs + [h])) == PrintLines(ColonLines(hs)) + ((h.0 + (": " + h.1)) + CRLF)
    ensures PrintLines(SpaceLines(hs + [h])) == PrintLines(SpaceLines(hs)) + ((h.0 + (" " + h.1)) + CRLF)
  {
    assert ": " + h.1 == ":" + (" " + h.1);
    assert ColonLines(hs + [h]) == ColonLines(hs) + [ColonLine(h)];
    assert SpaceLines(hs + [h]) == SpaceLines(hs) + [SpaceLine(h)];
    PrintLinesAppend(ColonLines(hs), ColonLine(h));
    PrintLinesAppend(SpaceLines(hs), SpaceLine(h));
  }

  /** `std::getline`: a line, and what comes behind its line end. */
  function FirstLine(s: string): (r: (string, string))
    ensures s != "" ==> |r.1| < |s|
  {
    match Find(s, "\n", 0) case None => (s, "") case Some(i) => (s[..i], s[i + 1..])
  }

  method GetLine(s: string) returns (line: string, rest: string)
    requires s != ""
    ensures (line, rest) == FirstLine(s)
  {
    var end := Find(s, "\n", 0);
    if end == None {
      return s, "";
    }
    return s[..end.value], s[end.value + 1..];
  }

  lemma NextLine(req: Request, s: string)
    requires s != ""
    ensures var (line, rest) := FirstLine(s);
            var (key, val) := HeaderLine(line);
            HeaderLines(req, s) == HeaderLines(HttpMessageSpec.SetHeaders(req, key, val), rest)
  {
    hide HeaderLine;
  }

  class HttpRequest {
    var verb: Method
    var path: string
    var version: Version
    var headers: map<string, string>
    var content: string

    function Val(): Request
      reads this
    {
      Request(verb, path, version, headers, content)
    }

    constructor ()
      ensures Val() == FRESH
    {
      verb, path, version, headers, content := GET, "", Http10, map[], "";
    }

    method SetContentLength()
      modifies this`headers
      ensures headers == old(headers)[LENGTH := Decimal(|content|)]
    {
      headers := headers[LENGTH := Decimal(|content|)];
    }

    method SetHeader(key: string, val: string)
      modifies this`headers
      ensures Val() == HttpMessageSpec.SetHeaders(old(Val()), key, val)
    {
      headers := headers[key := val];
      SetContentLength();
    }

    method SetBody(body: string)
      modifies this`headers, this`content
      ensures Val() == HttpMessageSpec.SetContent(old(Val()), body)
    {
      content := body;
      SetContentLength();
    }

    /** Reads the start line; fields set before an exception keep their new values. */
    method ReadStartLine(line: string) returns (outcome: Outcome)
      modifies this`verb, this`path, this`version
      ensures (Val(), outcome) == StartLine(old(Val()), line)
    {
      var (v, rest) := Word(line);
      var (p, rest') := Word(rest);
      if p != "" {
        path := p;
      }
      var (ver, _) := Word(rest');
      hide Word;
      var m := MethodFromString(v);
      if m == None {
        return Invalid("[MethodFromString] invalid method");
      }
      verb := m.value;
      var n := VersionFromString(ver);
      if n == None {
        return Invalid("[VersionFromString] invalid version");
      }
      version := n.value;
      if version != Http09 && version != Http10 && version != Http11 {
        return Unsupported("[HttpRequest::FromString] http version not support");
      }
      return Parsed;
    }

    /** The loop over `std::getline`; `rest` is what the stream has left. */
    method ReadHeaderLines(lines: string)
      modifies this`headers
      ensures Val() == HeaderLines(old(Val()), lines)
    {
      var rest := lines;
      while rest != ""
        invariant verb == old(verb) && path == old(path) && version == old(version) && content == old(content)
        invariant HeaderLines(Val(), rest) == HeaderLines(old(Val()), lines)
        decreases |rest|
      {
        NextLine(Val(), rest);
        hide HeaderLine, HeaderLines, Find;
        var line;
        line, rest := GetLine(rest);
        var (key, val) := HeaderLine(line);
        SetHeader(key, val);
      }
    }

    /** `FromString`: the object is what the specification says, however it ends. */
    method FromString(request: string) returns (outcome: Outcome)
      modifies this
      ensures (Val(), outcome) == HttpMessageSpec.FromString(old(Val()), request)
    {
      var headerLines, messageBody := "", "";
      var prevPos: nat := 0;
      var currPos := Find(request, CRLF, prevPos);
      if currPos == None {
        return Invalid("[HttpRequest::FromString] cannot find start line in request message");
      }
      var startLine := request[..currPos.value];
      prevPos := currPos.value + 2;
      currPos := Find(request, BLANK, prevPos);
      if currPos != None {
        headerLines := request[prevPos..currPos.value];
        prevPos := currPos.value + 4;
        assert prevPos <= |request|;
        if prevPos < |request| {
          messageBody := request[prevPos..];
        }
        assert messageBody == request[prevPos..];
      }
      assert Split(request) == Some((startLine, headerLines, messageBody));
      hide Split, Find, StartLine, HeaderLines;
      outcome := ReadStartLine(startLine);
      if outcome == Parsed {
        ReadHeaderLines(headerLines);
        SetBody(messageBody);
      }
    }

    method ToString() returns (s: string)
      ensures exists hs :: Iterates(hs, headers) && s == Print(verb, path, version, SpaceLines(hs), content)
    {
      var lines := PrintHeaderLines(headers, " ");
      ghost var hs :| Iterates(hs, headers) && lines == PrintLines(SpaceLines(hs));
      s := (MethodToString(verb) + (" " + (path + (" " + VersionToString(version)))))
        + (CRLF + (lines + (CRLF + content)));
      assert s == Print(verb, path, version, SpaceLines(hs), content);
    }
  }

  class HttpResponse {
    var status: nat
    var version: Version
    var headers: map<string, string>
    var content: string

    function Val(): Response
      reads this
    {
      Response(status, version, headers, content)
    }

    constructor (res: Response)
      ensures Val() == res
    {
      status, version, headers, content := res.status, res.version, res.headers, res.content;
    }

    method SetStatusCode(code: nat)
      modifies this`status
      ensures status == code
    {
      status := code;
    }

    method SetContent(body: string)
      modifies this`headers, this`content
      ensures Val() == WithContent(old(Val()), body)
    {
      content := body;
      headers := headers[LENGTH := Decimal(|content|)];
    }

    method ToString(sendContent: bool) returns (s: string)
      ensures exists hs :: Iterates(hs, headers) && s == PrintResponse(Val(), hs, sendContent)
    {
      var lines := PrintHeaderLines(headers, ": ");
      ghost var hs :| Iterates(hs, headers) && lines == PrintLines(ColonLines(hs));
      var start := VersionToString(version) + (" " + (Decimal(status) + (" " + StatusCodeToString(status))));
      var body := "";
      if sendContent {
        body := content + CRLF;
      }
      s := start + (CRLF + (lines + (CRLF + body)));
      assert s == PrintResponse(Val(), hs, sendContent);
    }
  }
}
