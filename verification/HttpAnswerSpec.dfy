/**
  What the server makes of any text (src/http_message.cc, src/http_server.cc:346-392): start lines with any spacing and
  any number of words, texts without line ends or blank lines, the responses of handlers, and what a client reads
  in a status line (sections 4 and 5 of RFC 9112, and 15 of RFC 9110).
 */
module HttpAnswerSpec {
  import opened Common
  import opened HttpMessageSpec

  // ----- the words of a line -----

  predicate Blank(s: string) {
    forall i :: 0 <= i < |s| ==> IsSpace(s[i])
  }

  /** The line begins with white space, then has the first word, and so on; after the last word there is white space
      only. */
  ghost predicate Spaced(line: string, words: seq<string>)
    decreases |words|
  {
    if words == [] then Blank(line)
    else exists gap: string, rest: string :: StartsWith(line, gap, words[0], rest) && Spaced(rest, words[1..])
  }

  ghost predicate StartsWith(line: string, gap: string, word: string, rest: string) {
    && line == gap + (word + rest) && Blank(gap) && word != "" && Clean(word)
    && (rest != "" ==> IsSpace(rest[0]))
  }

  function WordAt(words: seq<string>, i: nat): string {
    if i < |words| then words[i] else ""
  }

  function Tail(words: seq<string>): seq<string> {
    if words == [] then [] else words[1..]
  }

  lemma {:induction false} SkipBlank(gap: string, s: string)
    requires Blank(gap)
    ensures Word(gap + s) == Word(s)
  {
    if gap == "" {
      assert gap + s == s;
    } else {
      SkipBlank(gap[1..], s);
      assert (gap + s)[1..] == gap[1..] + s;
    }
  }

  lemma WordOfSpaced(line: string, words: seq<string>)
    requires Spaced(line, words)
    ensures Word(line).0 == WordAt(words, 0) && Spaced(Word(line).1, Tail(words))
  {
    if words == [] {
      SkipBlank(line, "");
      assert line + "" == line;
    } else {
      var gap: string, rest: string :| StartsWith(line, gap, words[0], rest) && Spaced(rest, words[1..]);
      SkipBlank(gap, words[0] + rest);
      WordOf(words[0], rest);
    }
  }

  /** Every line has words. */
  lemma {:induction false} EveryLineIsSpaced(line: string) returns (words: seq<string>)
    ensures Spaced(line, words)
    decreases |line|
  {
    if line == "" {
      words := [];
    } else if IsSpace(line[0]) {
      words := EveryLineIsSpaced(line[1..]);
      MoreBlank(line, words);
    } else {
      var n := Extent(line);
      var rest := EveryLineIsSpaced(line[n..]);
      words := [line[..n]] + rest;
      assert line == "" + (line[..n] + line[n..]) && words[1..] == rest;
      assert StartsWith(line, "", words[0], line[n..]);
    }
  }

  lemma MoreBlank(line: string, words: seq<string>)
    requires line != "" && IsSpace(line[0]) && Spaced(line[1..], words)
    ensures Spaced(line, words)
  {
    if words != [] {
      var gap: string, rest: string :| StartsWith(line[1..], gap, words[0], rest) && Spaced(rest, words[1..]);
      var gap' := [line[0]] + gap;
      assert line == [line[0]] + line[1..] == gap' + (words[0] + rest);
      assert StartsWith(line, gap', words[0], rest);
    }
  }

  // ----- start lines -----

  predicate NamesMethod(word: string) {
    exists m: Method :: Upper(word) == MethodToString(m)
  }

  predicate NamesVersion(word: string) {
    exists v: Version :: Upper(word) == VersionToString(v)
  }

  /** How parsing ends for a start line with these words, in the order of the checks. */
  function StartOutcome(words: seq<string>): Outcome {
    if !NamesMethod(WordAt(words, 0)) then Invalid("[MethodFromString] invalid method")
    else if !NamesVersion(WordAt(words, 2)) then Invalid("[VersionFromString] invalid version")
    else if Upper(WordAt(words, 2)) == VersionToString(Http20) then
      Unsupported("[HttpRequest::FromString] http version not support")
    else Parsed
  }

  lemma NoMethod(word: string)
    ensures MethodFromString(word).Some? <==> NamesMethod(word)
    ensures MethodFromString(word).Some? ==> MethodToString(MethodFromString(word).value) == Upper(word)
  {
    forall m: Method ensures MethodFromString(word) == Some(m) <==> Upper(word) == MethodToString(m) {
      MethodConversion(word, m);
    }
    hide MethodFromString, MethodToString, Upper;
    if MethodFromString(word).Some? {
      assert Upper(word) == MethodToString(MethodFromString(word).value);
    }
  }

  lemma NoVersion(word: string)
    ensures VersionFromString(word).Some? <==> NamesVersion(word)
    ensures VersionFromString(word).Some? ==> VersionToString(VersionFromString(word).value) == Upper(word)
  {
    forall v: Version ensures VersionFromString(word) == Some(v) <==> Upper(word) == VersionToString(v) {
      VersionConversion(word, v);
    }
    hide VersionFromString, VersionToString, Upper;
    if VersionFromString(word).Some? {
      assert Upper(word) == VersionToString(VersionFromString(word).value);
    }
  }

  lemma SameVersion(v: Version)
    ensures VersionToString(v) == VersionToString(Http20) <==> v == Http20
  {
    VersionConversion("HTTP/2.0", v);
    VersionConversion("HTTP/2.0", Http20);
  }

  /** What a start line leaves in the request: the path is the second word, if there is one, even if a check fails;
      the method is the one the first word names, once that has been checked, and the version likewise. */
  ghost predicate StartStored(req: Request, words: seq<string>, req': Request) {
    && req'.path == (if |words| >= 2 then words[1] else req.path)
    && req'.headers == req.headers && req'.content == req.content
    && (if NamesMethod(WordAt(words, 0)) then MethodToString(req'.verb) == Upper(WordAt(words, 0)) else req'.verb == req.verb)
    && (if NamesMethod(WordAt(words, 0)) && NamesVersion(WordAt(words, 2))
        then VersionToString(req'.version) == Upper(WordAt(words, 2)) else req'.version == req.version)
  }

  lemma StartLineIs(req: Request, line: string, words: seq<string>)
    requires Spaced(line, words)
    ensures StartLine(req, line).1 == StartOutcome(words) && StartStored(req, words, StartLine(req, line).0)
  {
    WordOfSpaced(line, words);
    var s1 := Word(line).1;
    WordOfSpaced(s1, Tail(words));
    var s2 := Word(s1).1;
    WordOfSpaced(s2, Tail(Tail(words)));
    assert Word(s1).0 == WordAt(words, 1) && Word(s2).0 == WordAt(words, 2);
    assert WordAt(words, 1) == "" <==> |words| < 2 by {
      if |words| >= 2 { SecondWord(line, words); }
    }
    hide Word, Spaced, StartLine;
    StartLineOn(req, line, words);
  }

  /** The checks, one after the other. */
  lemma StartLineOn(req: Request, line: string, words: seq<string>)
    requires var (a, s1) := Word(line);
             var (b, s2) := Word(s1);
             a == WordAt(words, 0) && b == WordAt(words, 1) && Word(s2).0 == WordAt(words, 2)
    requires WordAt(words, 1) == "" <==> |words| < 2
    ensures StartLine(req, line).1 == StartOutcome(words) && StartStored(req, words, StartLine(req, line).0)
  {
    var a, c := WordAt(words, 0), WordAt(words, 2);
    NoMethod(a);
    NoVersion(c);
    var m, v := MethodFromString(a), VersionFromString(c);
    if v.Some? { SameVersion(v.value); }
    hide Word, MethodFromString, VersionFromString, MethodToString, VersionToString, Upper, NamesMethod, NamesVersion;
    hide StartOutcome, StartStored;
    var r := StartLine(req, line);
    var path := if |words| >= 2 then words[1] else req.path;
    assert r.0 == if m == None then req.(path := path)
                  else if v == None then req.(path := path, verb := m.value)
                  else req.(path := path, verb := m.value, version := v.value);
    StoredIs(req, words, r.0, m, v);
    OutcomeIs(words, m, v);
  }

  lemma StoredIs(req: Request, words: seq<string>, req': Request, m: Option<Method>, v: Option<Version>)
    requires var path := if |words| >= 2 then words[1] else req.path;
             req' == if m == None then req.(path := path)
                     else if v == None then req.(path := path, verb := m.value)
                     else req.(path := path, verb := m.value, version := v.value)
    requires (m.Some? <==> NamesMethod(WordAt(words, 0))) && (v.Some? <==> NamesVersion(WordAt(words, 2)))
    requires m.Some? ==> MethodToString(m.value) == Upper(WordAt(words, 0))
    requires v.Some? ==> VersionToString(v.value) == Upper(WordAt(words, 2))
    ensures StartStored(req, words, req')
  {
    hide MethodToString, VersionToString, Upper, NamesMethod, NamesVersion, WordAt;
  }

  lemma OutcomeIs(words: seq<string>, m: Option<Method>, v: Option<Version>)
    requires (m.Some? <==> NamesMethod(WordAt(words, 0))) && (v.Some? <==> NamesVersion(WordAt(words, 2)))
    requires v.Some? ==> VersionToString(v.value) == Upper(WordAt(words, 2))
    requires v.Some? ==> (VersionToString(v.value) == VersionToString(Http20) <==> v.value == Http20)
    ensures StartOutcome(words) ==
            if m == None then Invalid("[MethodFromString] invalid method")
            else if v == None then Invalid("[VersionFromString] invalid version")
            else if v.value == Http20 then Unsupported("[HttpRequest::FromString] http version not support")
            else Parsed
  {
    hide MethodToString, VersionToString, Upper, NamesMethod, NamesVersion, WordAt;
  }

  lemma SecondWord(line: string, words: seq<string>)
    requires Spaced(line, words) && |words| >= 2
    ensures words[1] != ""
  {
    var gap: string, rest: string :| StartsWith(line, gap, words[0], rest) && Spaced(rest, words[1..]);
    var gap': string, rest': string :| StartsWith(rest, gap', words[1..][0], rest') && Spaced(rest', words[1..][1..]);
  }

  // ----- whole texts -----

  /** A text without a line end is refused, and changes nothing. */
  lemma NoLineEnd(req: Request, text: string)
    requires forall j :: 0 <= j < |text| ==> !At(text, CRLF, j)
    ensures FromString(req, text) ==
            (req, Invalid("[HttpRequest::FromString] cannot find start line in request message"))
  {
    FindNone(text, CRLF, 0);
  }

  lemma FindNone(s: string, pat: string, from: nat)
    requires pat != "" && from <= |s| && forall j :: from <= j < |s| ==> !At(s, pat, j)
    ensures Find(s, pat, from) == None
  {
  }

  /** Any other text: it is parsed if and only if the first word of its first line names a method and the third
      one a version before 2.0, however they are spaced and whatever follows; else the first check that fails
      says how it ends. A text without a blank line has no headers and no body. */
  lemma AnyText(req: Request, line: string, tail: string, words: seq<string>)
    requires Spaced(line, words) && forall j :: 0 <= j < |line| ==> !At(line + (CRLF + tail), CRLF, j)
    ensures var (req', outcome) := FromString(req, line + (CRLF + tail));
            && outcome == StartOutcome(words)
            && (outcome != Parsed ==> StartStored(req, words, req'))
            && ((forall j :: 0 <= j < |tail| ==> !At(tail, BLANK, j)) && outcome == Parsed ==>
                  && req'.content == "" && req'.headers == req.headers[LENGTH := Decimal(0)]
                  && StartStored(req, words, req'.(headers := req.headers, content := req.content)))
  {
    var text := line + (CRLF + tail);
    FirstLineEnd(line, tail);
    StartLineIs(req, line, words);
    if forall j :: 0 <= j < |tail| ==> !At(tail, BLANK, j) {
      NoBlankLine(line, tail);
    }
    hide StartLine, StartOutcome, StartStored, Spaced, HeaderLine, Find, At, Decimal;
    assert HeaderLines(StartLine(req, line).0, "") == StartLine(req, line).0;
  }

  lemma FirstLineEnd(line: string, tail: string)
    requires forall j :: 0 <= j < |line| ==> !At(line + (CRLF + tail), CRLF, j)
    ensures var text := line + (CRLF + tail); Find(text, CRLF, 0) == Some(|line|) && text[..|line|] == line
  {
    var text := line + (CRLF + tail);
    assert text[|line|..|line| + 2] == CRLF;
    FindIs(text, CRLF, 0, |line|);
  }

  lemma NotBehind(before: string, tail: string, pat: string)
    requires pat != "" && forall j :: 0 <= j < |tail| ==> !At(tail, pat, j)
    ensures Find(before + tail, pat, |before|) == None
  {
    forall j | |before| <= j < |before + tail| ensures !At(before + tail, pat, j) {
      Shifted(before, tail, pat, j - |before|);
    }
    hide At;
    FindNone(before + tail, pat, |before|);
  }

  lemma NoBlankLine(line: string, tail: string)
    requires forall j :: 0 <= j < |tail| ==> !At(tail, BLANK, j)
    ensures Find(line + (CRLF + tail), BLANK, |line| + 2) == None
  {
    NotBehind(line + CRLF, tail, BLANK);
    Regroup(line, CRLF, tail);
    assert |line + CRLF| == |line| + 2;
    hide *;
  }

  lemma Regroup(a: string, b: string, c: string)
    ensures a + (b + c) == (a + b) + c
  {
  }

  // ----- what handlers answer -----

  lemma RouteOf(route: string, query: string)
    requires '?' !in route
    ensures Route(route) == route && Route(route + ("?" + query)) == route
  {
    var path := route + ("?" + query);
    forall j | 0 <= j < |route| ensures !At(path, "?", j) && !At(route, "?", j) {
      assert path[j] == route[j] && route[j] in route;
      NotAt(path, "?", j);
      NotAt(route, "?", j);
    }
    assert path[|route|..|route| + 1] == "?";
    FindIs(path, "?", 0, |route|);
    assert path[..|route|] == route;
    FindNone(route, "?", 0);
  }

  /** A response that the server makes itself. */
  predicate IsFailure(res: Response, status: nat, what: string) {
    res.status == status && res.version == Http10 && res.content == what && res.headers == map[LENGTH := Decimal(|what|)]
  }

  predicate IsBare(res: Response, status: nat) {
    res.status == status && res.version == Http10 && res.content == "" && res.headers == map[]
  }

  /** A printed request for a route, with or without a query: 404 without content if nothing is registered for the
      route, 405 if nothing is for its method; else the handler's response, or, for what it throws, 400, 505 or
      500 with the text of the exception. The content is left out for HEAD, and the connection kept exactly if
      the last Connection header says so. */
  lemma RouteIsAnswered(routes: map<string, set<Method>>, m: Method, route: string, query: Option<string>, v: Version,
                        hs: seq<(string, string)>, body: string, handler: Handler)
    requires route != "" && Clean(route) && '?' !in route && (query.Some? ==> Clean(query.value)) && v != Http20
    requires hs != [] && forall i :: 0 <= i < |hs| ==> HeaderOk(hs[i])
    ensures var path := if query.Some? then route + ("?" + query.value) else route;
            var (res, send, keepAlive) := Answer(routes, Print(m, path, v, ColonLines(hs), body), handler);
            && (send <==> m != HEAD) && (keepAlive <==> AsksToStay(hs))
            && RightResponse(res, route in routes, route in routes && m in routes[route], handler)
  {
    var path := if query.Some? then route + ("?" + query.value) else route;
    RouteOf(route, if query.Some? then query.value else "");
    assert path != "" && Clean(path);
    var text := Print(m, path, v, ColonLines(hs), body);
    ParsePrinted(m, path, v, hs, body);
    PrintedIsAnswered(routes, m, path, v, hs, body, handler);
    var req := FromString(FRESH, text).0;
    AnswerOfParsed(routes, text, handler, req);
    DispatchOf(routes, req, handler);
    hide *;
  }

  lemma AnswerOfParsed(routes: map<string, set<Method>>, text: string, handler: Handler, req: Request)
    requires FromString(FRESH, text) == (req, Parsed)
    ensures Answer(routes, text, handler).0 == Caught(Dispatch(routes, req, handler))
  {
    hide FromString, Dispatch;
  }

  /** The response to a parsed request. */
  ghost predicate RightResponse(res: Response, known: bool, allowed: bool, handler: Handler) {
    if !known then IsBare(res, 404)
    else if !allowed then IsBare(res, 405)
    else match handler
         case Replies(reply) => res == reply
         case ThrowsInvalid(what) => IsFailure(res, 400, what)
         case ThrowsLogic(what) => IsFailure(res, 505, what)
         case Throws(what) => IsFailure(res, 500, what)
  }

  lemma DispatchOf(routes: map<string, set<Method>>, req: Request, handler: Handler)
    ensures var route := Route(req.path);
            RightResponse(Caught(Dispatch(routes, req, handler)), route in routes,
                          route in routes && req.verb in routes[route], handler)
  {
    hide Route, Decimal;
  }

  // ----- what a client reads in a response -----

  /** The words of a printed status line: the version, the code, and the rest is the phrase. */
  lemma StatusLineReads(res: Response)
    ensures var (version, rest) := Word(StatusLine(res));
            var (code, rest') := Word(rest);
            && VersionFromString(version) == Some(res.version)
            && (forall n :: code == Decimal(n) <==> n == res.status)
            && rest' == " " + StatusCodeToString(res.status)
  {
    var v, d, t := VersionToString(res.version), Decimal(res.status), " " + StatusCodeToString(res.status);
    VersionConversion(v, res.version);
    forall n | d == Decimal(n) ensures n == res.status {
      DecimalRoundTrip(n);
      DecimalRoundTrip(res.status);
    }
    assert Clean(d);
    hide VersionToString, Decimal, StatusCodeToString, Clean, Word;
    WordOf(v, " " + (d + t));
    WordOf(d, t);
    assert StatusLine(res) == v + (" " + (d + t));
  }

  /** The codes with a phrase, as in section 15 of RFC 9110 and section 2.3.3 of RFC 2324. */
  const REASONS: map<nat, string> := map[
    100 := "Continue", 200 := "OK", 202 := "Accepted", 301 := "Moved Permanently", 302 := "Found",
    400 := "Bad Request", 403 := "Forbidden", 404 := "Not Found", 405 := "Method Not Allowed",
    418 := "I'm a Teapot", 500 := "Internal Server Error", 501 := "Not Implemented", 502 := "Bad Gateway"]

  /** The phrase of a status line; all other codes, 505 among them, have none. */
  lemma ReasonPhrase(status: nat)
    ensures StatusCodeToString(status) == if status in REASONS then REASONS[status] else ""
  {
  }

  /** The names on the wire. */
  const METHODS: map<Method, string> := map[
    GET := "GET", HEAD := "HEAD", POST := "POST", PUT := "PUT", DELETE := "DELETE", CONNECT := "CONNECT",
    OPTIONS := "OPTIONS", TRACE := "TRACE", PATCH := "PATCH"]
  const VERSIONS: map<Version, string> := map[
    Http09 := "HTTP/0.9", Http10 := "HTTP/1.0", Http11 := "HTTP/1.1", Http20 := "HTTP/2.0"]

  /** A word names the method, or the version, that is written so, in any case. */
  lemma NamesOnTheWire(word: string, m: Method, v: Version)
    ensures m in METHODS && (MethodFromString(word) == Some(m) <==> Upper(word) == METHODS[m])
    ensures v in VERSIONS && (VersionFromString(word) == Some(v) <==> Upper(word) == VERSIONS[v])
  {
    MethodConversion(word, m);
    VersionConversion(word, v);
    hide MethodFromString, VersionFromString, Upper;
  }
}
