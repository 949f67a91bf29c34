/**
  The request parser and the message printers of src/http_message.cc over values: what `FromString`
  makes of a text, and why it undoes the printed grammar (sections 2.1, 3 and 5 of RFC 9112).
 */
module HttpMessageSpec {
  import opened Common

  datatype Method = GET | HEAD | POST | PUT | DELETE | CONNECT | OPTIONS | TRACE | PATCH

  datatype Version = Http09 | Http10 | Http11 | Http20

  datatype Request = Request(verb: Method, path: string, version: Version, headers: map<string, string>,
      content: string)

  /** How `FromString` ends: normally, or with a `std::invalid_argument` or a `std::logic_error`. */
  datatype Outcome = Parsed | Invalid(what: string) | Unsupported(what: string)

  const FRESH := Request(GET, "", Http10, map[], "")

  const CRLF: string := "\r\n"
  const BLANK: string := "\r\n\r\n"
  const LENGTH: string := "Content-Length"

  // ----- strings -----

  predicate IsSpace(c: char) {
    c == ' ' || '\t' <= c <= '\r'
  }

  predicate Clean(s: string) {
    forall i :: 0 <= i < |s| ==> !IsSpace(s[i])
  }

  predicate At(s: string, pat: string, i: nat) {
    i + |pat| <= |s| && s[i..i + |pat|] == pat
  }

  /** `std::string::find`: the first place from `from` on. */
  function Find(s: string, pat: string, from: nat): (r: Option<nat>)
    requires from <= |s| && pat != ""
    ensures r.Some? ==> from <= r.value && At(s, pat, r.value) && forall j :: from <= j < r.value ==> !At(s, pat, j)
    ensures r == None ==> forall j :: from <= j ==> !At(s, pat, j)
    decreases |s| - from
  {
    if At(s, pat, from) then Some(from)
    else if from == |s| then None
    else Find(s, pat, from + 1)
  }

  /** `std::remove_if` with `isspace`. */
  function Strip(s: string): string {
    if s == "" then "" else if IsSpace(s[0]) then Strip(s[1..]) else [s[0]] + Strip(s[1..])
  }

  function ToUpper(c: char): char {
    if 'a' <= c <= 'z' then ((c as int) - 32) as char else c
  }

  function Upper(s: string): (r: string)
    ensures |r| == |s| && forall i :: 0 <= i < |s| ==> r[i] == ToUpper(s[i])
  {
    seq(|s|, i requires 0 <= i < |s| => ToUpper(s[i]))
  }

  /** `std::to_string`. */
  function Decimal(n: nat): (s: string)
    ensures s != "" && forall i :: 0 <= i < |s| ==> '0' <= s[i] <= '9'
  {
    if n < 10 then [Digit(n)] else Decimal(n / 10) + [Digit(n % 10)]
  }

  function Digit(d: nat): (c: char)
    requires d < 10
    ensures '0' <= c <= '9'
  {
    (d + 48) as char
  }

  function Number(s: string): nat
    requires forall i :: 0 <= i < |s| ==> '0' <= s[i] <= '9'
  {
    if s == "" then 0 else 10 * Number(s[..|s| - 1]) + (s[|s| - 1] as nat - 48)
  }

  lemma {:induction false} DecimalRoundTrip(n: nat)
    ensures Number(Decimal(n)) == n
  {
    if n >= 10 {
      DecimalRoundTrip(n / 10);
      assert Decimal(n)[..|Decimal(n)| - 1] == Decimal(n / 10);
    } else {
      assert Number("") == 0 && Decimal(n)[..0] == "";
    }
  }

  /** One extraction of a word from a stream; both results are empty if there is none left. */
  function Word(s: string): (r: (string, string))
    ensures Clean(r.0) && (r.0 == "" ==> r.1 == "") && (r.0 != "" ==> |r.1| < |s|)
  {
    if s == "" then ("", "")
    else if IsSpace(s[0]) then Word(s[1..])
    else var n := Extent(s); (s[..n], s[n..])
  }

  function Extent(s: string): (n: nat)
    ensures n <= |s| && Clean(s[..n]) && (n < |s| ==> IsSpace(s[n])) && (s != "" && !IsSpace(s[0]) ==> n > 0)
  {
    if s == "" || IsSpace(s[0]) then 0 else 1 + Extent(s[1..])
  }

  /** A text without its white space: its words, run together. */
  function Squeeze(s: string): string
    decreases |s|
  {
    var (word, rest) := Word(s);
    if word == "" then "" else word + Squeeze(rest)
  }

  // ----- methods and versions -----

  function MethodToString(m: Method): string {
    match m
    case GET => "GET" case HEAD => "HEAD" case POST => "POST" case PUT => "PUT" case DELETE => "DELETE"
    case CONNECT => "CONNECT" case OPTIONS => "OPTIONS" case TRACE => "TRACE" case PATCH => "PATCH"
  }

  function VersionToString(v: Version): string {
    match v
    case Http09 => "HTTP/0.9" case Http10 => "HTTP/1.0" case Http11 => "HTTP/1.1" case Http20 => "HTTP/2.0"
  }

  function MethodFromString(s: string): Option<Method> {
    var u := Upper(s);
    if u == "GET" then Some(GET)
    else if u == "HEAD" then Some(HEAD)
    else if u == "POST" then Some(POST)
    else if u == "PUT" then Some(PUT)
    else if u == "DELETE" then Some(DELETE)
    else if u == "CONNECT" then Some(CONNECT)
    else if u == "OPTIONS" then Some(OPTIONS)
    else if u == "TRACE" then Some(TRACE)
    else if u == "PATCH" then Some(PATCH)
    else None
  }

  function VersionFromString(s: string): Option<Version> {
    var u := Upper(s);
    if u == "HTTP/0.9" then Some(Http09)
    else if u == "HTTP/1.0" then Some(Http10)
    else if u == "HTTP/1.1" then Some(Http11)
    else if u == "HTTP/2.0" then Some(Http20)
    else None
  }

  /** The conversions accept exactly the printed names, in any case. */
  lemma MethodConversion(s: string, m: Method)
    ensures MethodFromString(s) == Some(m) <==> Upper(s) == MethodToString(m)
    ensures Upper(MethodToString(m)) == MethodToString(m) != "" && Clean(MethodToString(m))
  {
    var t := MethodToString(m);
    assert Upper(t) == t;
  }

  lemma VersionConversion(s: string, v: Version)
    ensures VersionFromString(s) == Some(v) <==> Upper(s) == VersionToString(v)
    ensures Upper(VersionToString(v)) == VersionToString(v) != "" && Clean(VersionToString(v))
  {
    var t := VersionToString(v);
    assert Upper(t) == t;
  }

  // ----- the parser -----

  /** `SetHeaders` and `SetContent` of `HttpMessageInterface`. */
  function SetHeaders(req: Request, key: string, val: string): Request {
    req.(headers := req.headers[key := val][LENGTH := Decimal(|req.content|)])
  }

  function SetContent(req: Request, content: string): Request {
    req.(content := content, headers := req.headers[LENGTH := Decimal(|content|)])
  }

  /** A line without a colon is both the key and the value. */
  function HeaderLine(line: string): (string, string) {
    match Find(line, ":", 0)
    case None => (Strip(line), Strip(line))
    case Some(pos) => (Strip(line[..pos]), Strip(line[pos + 1..]))
  }

  /** The loop over `std::getline`. */
  function HeaderLines(req: Request, s: string): Request
    decreases |s|
  {
    if s == "" then req else
    match Find(s, "\n", 0)
    case None => var (key, val) := HeaderLine(s); SetHeaders(req, key, val)
    case Some(i) => var (key, val) := HeaderLine(s[..i]); HeaderLines(SetHeaders(req, key, val), s[i + 1..])
  }

  /** The start line, the header lines and the body; `None` without a line end. */
  function Split(text: string): Option<(string, string, string)> {
    match Find(text, CRLF, 0)
    case None => None
    case Some(p) =>
      match Find(text, BLANK, p + 2)
      case None => Some((text[..p], "", ""))
      case Some(q) => Some((text[..p], text[p + 2..q], text[q + 4..]))
  }

  /** `path_` is assigned before anything is checked, and `version_` before the last check. */
  function StartLine(req: Request, line: string): (Request, Outcome) {
    var (verb, rest) := Word(line);
    var (path, rest') := Word(rest);
    var (version, _) := Word(rest');
    var req' := if path == "" then req else req.(path := path);
    var m := MethodFromString(verb);
    if m == None then (req', Invalid("[MethodFromString] invalid method")) else
    var v := VersionFromString(version);
    if v == None then (req'.(verb := m.value), Invalid("[VersionFromString] invalid version")) else
    var done := req'.(verb := m.value, version := v.value);
    (done, if v.value == Http20 then Unsupported("[HttpRequest::FromString] http version not support") else Parsed)
  }

  /** The request after `FromString`, and how it ended. */
  function FromString(req: Request, text: string): (Request, Outcome) {
    match Split(text)
    case None => (req, Invalid("[HttpRequest::FromString] cannot find start line in request message"))
    case Some((line, headers, body)) =>
      var (req', outcome) := StartLine(req, line);
      if outcome != Parsed then (req', outcome)
      else (SetContent(HeaderLines(req', headers), body), Parsed)
  }

  // ----- the grammar and the printers -----

  /** What a header line may be for the cuts of the parser: not empty, and on one line. */
  predicate LineOk(line: string) {
    line != "" && '\r' !in line && '\n' !in line
  }

  /** The lines, each with its line end. */
  function PrintLines(lines: seq<string>): string {
    if lines == [] then "" else lines[0] + (CRLF + PrintLines(lines[1..]))
  }

  function PrintStart(m: Method, path: string, v: Version): string {
    MethodToString(m) + (" " + (path + (" " + VersionToString(v))))
  }

  /** Start line, header lines, blank line, body. */
  function Message(start: string, lines: seq<string>, body: string): string {
    start + (CRLF + (PrintLines(lines) + (CRLF + body)))
  }

  function Print(m: Method, path: string, v: Version, lines: seq<string>, body: string): string {
    Message(PrintStart(m, path, v), lines, body)
  }

  /** The header lines as `HttpResponse::ToString` prints them, and as `HttpRequest::ToString` does,
      which leaves out the colon. */
  function ColonLine(h: (string, string)): string {
    h.0 + (":" + (" " + h.1))
  }

  function SpaceLine(h: (string, string)): string {
    h.0 + (" " + h.1)
  }

  function ColonLines(hs: seq<(string, string)>): (r: seq<string>)
    ensures |r| == |hs| && forall i :: 0 <= i < |hs| ==> r[i] == ColonLine(hs[i])
  {
    seq(|hs|, i requires 0 <= i < |hs| => ColonLine(hs[i]))
  }

  function SpaceLines(hs: seq<(string, string)>): (r: seq<string>)
    ensures |r| == |hs| && forall i :: 0 <= i < |hs| ==> r[i] == SpaceLine(hs[i])
  {
    seq(|hs|, i requires 0 <= i < |hs| => SpaceLine(hs[i]))
  }

  predicate OneLine(s: string) {
    '\r' !in s && '\n' !in s
  }

  /** A header whose line is read back: its key is not blank and has no colon, and nothing breaks the line.
      White space is allowed otherwise. */
  predicate HeaderOk(h: (string, string)) {
    Squeeze(h.0) != "" && ':' !in h.0 && OneLine(h.0) && OneLine(h.1)
  }

  /** A header without white space. */
  predicate TightHeader(h: (string, string)) {
    h.0 != "" && Clean(h.0) && ':' !in h.0 && Clean(h.1)
  }

  function Squeezed(h: (string, string)): (string, string) {
    (Squeeze(h.0), Squeeze(h.1))
  }

  function SqueezedAll(hs: seq<(string, string)>): (r: seq<(string, string)>)
    ensures |r| == |hs| && forall i :: 0 <= i < |hs| ==> r[i] == Squeezed(hs[i])
  {
    seq(|hs|, i requires 0 <= i < |hs| => Squeezed(hs[i]))
  }

  /** The header map after some lines: the later of two lines with the same key counts. */
  function LineHeaders(m: map<string, string>, lines: seq<string>): map<string, string>
    decreases |lines|
  {
    if lines == [] then m else
    var (key, val) := HeaderLine(lines[0]);
    LineHeaders(m[key := val], lines[1..])
  }

  function Headers(m: map<string, string>, hs: seq<(string, string)>): map<string, string>
    decreases |hs|
  {
    if hs == [] then m else Headers(m[hs[0].0 := hs[0].1], hs[1..])
  }

  // ----- facts about strings -----

  lemma FindIs(s: string, pat: string, from: nat, i: nat)
    requires pat != "" && from <= i && At(s, pat, i) && forall j :: from <= j < i ==> !At(s, pat, j)
    ensures Find(s, pat, from) == Some(i)
  {
  }

  lemma NotAt(s: string, pat: string, j: nat)
    requires pat != "" && j < |s| && s[j] != pat[0]
    ensures !At(s, pat, j)
  {
  }

  lemma {:induction false} StripClean(s: string)
    requires Clean(s)
    ensures Strip(s) == s
  {
    if s != "" {
      StripClean(s[1..]);
      assert s == [s[0]] + s[1..];
    }
  }

  lemma {:induction false} StripConcat(a: string, b: string)
    ensures Strip(a + b) == Strip(a) + Strip(b)
  {
    hide IsSpace;
    if a == "" {
      assert a + b == b && Strip("") + Strip(b) == Strip(b);
    } else {
      StripConcat(a[1..], b);
      assert (a + b)[1..] == a[1..] + b && (a + b)[0] == a[0];
      assert ([a[0]] + Strip(a[1..])) + Strip(b) == [a[0]] + (Strip(a[1..]) + Strip(b));
    }
  }

  /** What `remove_if` leaves are the words. */
  lemma {:induction false} StripIsSqueeze(s: string)
    ensures Strip(s) == Squeeze(s)
    decreases |s|
  {
    if s == "" {
    } else if IsSpace(s[0]) {
      StripIsSqueeze(s[1..]);
    } else {
      var n := Extent(s);
      StripIsSqueeze(s[n..]);
      StripClean(s[..n]);
      StripConcat(s[..n], s[n..]);
      assert s == s[..n] + s[n..];
    }
  }

  lemma {:induction false} StripIsClean(s: string)
    ensures Clean(Strip(s))
  {
    if s != "" { StripIsClean(s[1..]); }
  }

  lemma SqueezeIsClean(s: string)
    ensures Clean(Squeeze(s)) && (Clean(s) ==> Squeeze(s) == s)
  {
    StripIsSqueeze(s);
    StripIsClean(s);
    if Clean(s) { StripClean(s); }
  }

  lemma SqueezeConcat(a: string, b: string)
    ensures Squeeze(a + b) == Squeeze(a) + Squeeze(b) && Squeeze(a + (" " + b)) == Squeeze(a + b) && Squeeze(" " + b) == Squeeze(b)
  {
    StripIsSqueeze(a);
    StripIsSqueeze(b);
    StripIsSqueeze(a + b);
    StripIsSqueeze(" " + b);
    StripIsSqueeze(a + (" " + b));
    StripConcat(a, b);
    StripConcat(" ", b);
    StripConcat(a, " " + b);
    assert Strip(" ") == Strip("") == "";
    hide Strip, Squeeze;
    assert "" + Strip(b) == Strip(b);
  }

  lemma {:induction false} ExtentOf(w: string, rest: string)
    requires Clean(w) && (rest != "" ==> IsSpace(rest[0]))
    ensures Extent(w + rest) == |w|
  {
    if w == "" {
      assert w + rest == rest;
    } else {
      ExtentOf(w[1..], rest);
      assert (w + rest)[1..] == w[1..] + rest;
    }
  }

  lemma WordOf(w: string, rest: string)
    requires w != "" && Clean(w) && (rest != "" ==> IsSpace(rest[0]))
    ensures Word(w + rest) == (w, rest)
    ensures Word(" " + (w + rest)) == (w, rest)
  {
    ExtentOf(w, rest);
    assert (" " + (w + rest))[1..] == w + rest;
    assert (w + rest)[..|w|] == w && (w + rest)[|w|..] == rest;
  }

  // ----- the start line -----

  lemma ThreeWords(a: string, b: string, c: string)
    requires a != "" && b != "" && c != "" && Clean(a) && Clean(b) && Clean(c)
    ensures var (x, s) := Word(a + (" " + (b + (" " + c))));
            var (y, s') := Word(s);
            x == a && y == b && Word(s').0 == c
  {
    var tail := " " + c;
    hide Word, Clean;
    WordOf(a, " " + (b + tail));
    WordOf(b, tail);
    LastWord(c);
  }

  lemma LastWord(w: string)
    requires w != "" && Clean(w)
    ensures Word(" " + w) == (w, "")
  {
    assert w + "" == w;
    WordOf(w, "");
  }

  lemma StartLineOf(req: Request, m: Method, path: string, v: Version)
    requires path != "" && Clean(path)
    ensures StartLine(req, PrintStart(m, path, v)) ==
            (req.(verb := m, path := path, version := v),
             if v == Http20 then Unsupported("[HttpRequest::FromString] http version not support") else Parsed)
  {
    var ms, vs := MethodToString(m), VersionToString(v);
    MethodConversion(ms, m);
    VersionConversion(vs, v);
    ThreeWords(ms, path, vs);
    hide Word, Clean, MethodFromString, VersionFromString, Upper, MethodToString, VersionToString;
  }

  // ----- the header lines -----

  /** The carriage return at the end of a line is stripped with the other white space. */
  lemma HeaderLineCr(line: string)
    ensures HeaderLine(line + "\r") == HeaderLine(line)
  {
    var s := line + "\r";
    forall j | 0 <= j < |line| ensures At(s, ":", j) <==> At(line, ":", j) {
      assert s[j..j + 1] == [s[j]] == line[j..j + 1];
    }
    NotAt(s, ":", |line|);
    assert Strip("\r") == Strip("") == "";
    match Find(line, ":", 0)
    case None =>
      StripConcat(line, "\r");
      assert Strip(line) + "" == Strip(line);
    case Some(p) =>
      FindIs(s, ":", 0, p);
      StripConcat(line[p + 1..], "\r");
      assert s[..p] == line[..p] && s[p + 1..] == line[p + 1..] + "\r";
      assert Strip(line[p + 1..]) + "" == Strip(line[p + 1..]);
  }

  lemma ColonPlace(key: string, rest: string)
    requires ':' !in key
    ensures Find(key + (":" + rest), ":", 0) == Some(|key|)
  {
    var s := key + (":" + rest);
    assert s[|key|..|key| + 1] == ":";
    forall j | 0 <= j < |key| ensures !At(s, ":", j) {
      assert s[j] == key[j];
      NotAt(s, ":", j);
    }
    FindIs(s, ":", 0, |key|);
  }

  lemma PlainLines(h: (string, string))
    requires HeaderOk(h)
    ensures LineOk(ColonLine(h)) && LineOk(SpaceLine(h))
  {
    assert Squeeze("") == "";
    hide Squeeze;
    var s, t := ColonLine(h), SpaceLine(h);
    forall i | 0 <= i < |s| ensures s[i] != '\r' && s[i] != '\n' {
      assert s[i] == if i < |h.0| then h.0[i] else if i == |h.0| then ':' else if i == |h.0| + 1
          then ' ' else h.1[i - |h.0| - 2];
    }
    forall i | 0 <= i < |t| ensures t[i] != '\r' && t[i] != '\n' {
      assert t[i] == if i < |h.0| then h.0[i] else if i == |h.0| then ' ' else h.1[i - |h.0| - 1];
    }
  }

  /** A line with a colon is read back, without its white space. */
  lemma ColonLineOf(h: (string, string))
    requires HeaderOk(h)
    ensures HeaderLine(ColonLine(h)) == Squeezed(h)
  {
    ColonPlace(h.0, " " + h.1);
    StripIsSqueeze(h.0);
    StripIsSqueeze(" " + h.1);
    SqueezeConcat("", h.1);
    CutAt(h.0, " " + h.1);
    hide HeaderOk, Strip, Squeeze, At;
  }

  lemma CutAt(a: string, b: string)
    ensures (a + (":" + b))[..|a|] == a && (a + (":" + b))[|a| + 1..] == b
  {
  }

  /** What a line printed without its colon is read as: a colon in the value splits it, and else the whole
      line is key and value at once; white space is gone in any case. */
  function SpaceHeader(h: (string, string)): (string, string) {
    match Find(h.1, ":", 0)
    case None => (Squeeze(h.0 + h.1), Squeeze(h.0 + h.1))
    case Some(p) => (Squeeze(h.0 + h.1[..p]), Squeeze(h.1[p + 1..]))
  }

  lemma SpaceLineOf(h: (string, string))
    requires HeaderOk(h)
    ensures HeaderLine(SpaceLine(h)) == SpaceHeader(h)
  {
    hide Squeeze, Strip;
    match Find(h.1, ":", 0)
    case None =>
      NoColonIn(h.1);
      NoColonAt(h.0, " " + h.1);
      StripIsSqueeze(SpaceLine(h));
      SqueezeConcat(h.0, h.1);
    case Some(p) =>
      var before, rest := h.1[..p], h.1[p + 1..];
      FirstColon(h.1, p);
      SpacePlace(h.0, before, rest);
      StripIsSqueeze(h.0 + (" " + before));
      StripIsSqueeze(rest);
      SqueezeConcat(h.0, before);
      SpaceCut(h, p);
      hide HeaderOk, Clean, At;
  }

  /** Without white space nothing is taken out. */
  lemma TightSpaceHeader(h: (string, string))
    requires TightHeader(h)
    ensures SpaceHeader(h) == match Find(h.1, ":", 0)
                              case None => (h.0 + h.1, h.0 + h.1)
                              case Some(p) => (h.0 + h.1[..p], h.1[p + 1..])
  {
    match Find(h.1, ":", 0)
    case None => SqueezeIsClean(h.0 + h.1);
    case Some(p) =>
      SqueezeIsClean(h.0 + h.1[..p]);
      SqueezeIsClean(h.1[p + 1..]);
  }

  lemma AtColon(s: string, j: nat)
    ensures At(s, ":", j) <==> j < |s| && s[j] == ':'
  {
    if j < |s| {
      assert s[j..j + 1] == [s[j]];
    }
  }

  lemma NoColonIn(s: string)
    requires Find(s, ":", 0) == None
    ensures ':' !in s
  {
    forall j | 0 <= j < |s| ensures s[j] != ':' {
      AtColon(s, j);
    }
  }

  lemma NoColonAt(a: string, b: string)
    requires ':' !in a && ':' !in b
    ensures Find(a + b, ":", 0) == None
  {
    forall j: nat | j < |a + b| ensures !At(a + b, ":", j) {
      assert (a + b)[j] in a || (a + b)[j] in b;
      NotAt(a + b, ":", j);
    }
  }

  lemma FirstColon(s: string, p: nat)
    requires Find(s, ":", 0) == Some(p)
    ensures p < |s| && s[p] == ':' && ':' !in s[..p]
  {
    AtColon(s, p);
    forall j | 0 <= j < p ensures s[j] != ':' {
      AtColon(s, j);
    }
    hide At;
  }

  lemma SpacePlace(key: string, before: string, rest: string)
    requires ':' !in key && ':' !in before
    ensures Find((key + (" " + before)) + (":" + rest), ":", 0) == Some(|key + (" " + before)|)
  {
    ColonPlace(key + (" " + before), rest);
  }

  lemma SpaceCut(h: (string, string), p: nat)
    requires p < |h.1| && h.1[p] == ':'
    ensures var s, a := SpaceLine(h), h.0 + (" " + h.1[..p]);
            s == a + (":" + h.1[p + 1..]) && s[..|a|] == a && s[|a| + 1..] == h.1[p + 1..]
  {
    var s, a := SpaceLine(h), h.0 + (" " + h.1[..p]);
    assert s == a + (":" + h.1[p + 1..]);
    CutAt(a, h.1[p + 1..]);
  }

  /** The header lines without the last line end, as `FromString` cuts them out. */
  function Joined(lines: seq<string>): string
    requires lines != []
  {
    if |lines| == 1 then lines[0] else (lines[0] + "\r") + ("\n" + Joined(lines[1..]))
  }

  lemma {:induction false} JoinedIsPrinted(lines: seq<string>)
    requires lines != []
    ensures PrintLines(lines) == Joined(lines) + CRLF
  {
    if |lines| == 1 {
      assert PrintLines(lines[1..]) == "";
      assert CRLF + "" == CRLF;
    } else {
      JoinedIsPrinted(lines[1..]);
    }
  }

  lemma FirstBreak(line: string, rest: string)
    requires LineOk(line)
    ensures Find((line + "\r") + ("\n" + rest), "\n", 0) == Some(|line| + 1)
  {
    var s := (line + "\r") + ("\n" + rest);
    forall j | 0 <= j < |line| + 1 ensures !At(s, "\n", j) {
      assert j < |line| ==> s[j] == line[j] && line[j] in line;
      NotAt(s, "\n", j);
    }
    FindIs(s, "\n", 0, |line| + 1);
  }

  lemma FirstHeaderLine(req: Request, line: string, rest: string)
    requires LineOk(line)
    ensures HeaderLines(req, (line + "\r") + ("\n" + rest)) ==
            var (key, val) := HeaderLine(line); HeaderLines(SetHeaders(req, key, val), rest)
  {
    var s := (line + "\r") + ("\n" + rest);
    FirstBreak(line, rest);
    HeaderLineCr(line);
    hide HeaderLine, LineOk;
    assert s[..|line| + 1] == line + "\r" && s[|line| + 2..] == rest && s != "";
  }

  lemma LastHeaderLine(req: Request, line: string)
    requires LineOk(line)
    ensures HeaderLines(req, line) == var (key, val) := HeaderLine(line); SetHeaders(req, key, val)
  {
    forall j: nat | j < |line| ensures !At(line, "\n", j) {
      assert line[j] in line;
      NotAt(line, "\n", j);
    }
    hide HeaderLine;
  }

  lemma {:induction false} HeaderLinesOf(req: Request, lines: seq<string>)
    requires lines != [] && forall i :: 0 <= i < |lines| ==> LineOk(lines[i])
    ensures HeaderLines(req, Joined(lines)) ==
            req.(headers := LineHeaders(req.headers, lines)[LENGTH := Decimal(|req.content|)])
    decreases |lines|
  {
    var (key, val) := HeaderLine(lines[0]);
    hide HeaderLines, LineOk, HeaderLine, Decimal;
    if |lines| == 1 {
      LastHeaderLine(req, lines[0]);
      assert LineHeaders(req.headers[key := val], lines[1..]) == req.headers[key := val];
    } else {
      FirstHeaderLine(req, lines[0], Joined(lines[1..]));
      HeaderLinesOf(SetHeaders(req, key, val), lines[1..]);
      LengthLast(req.headers[key := val], lines[1..], Decimal(|req.content|));
    }
  }

  lemma {:induction false} LengthLast(m: map<string, string>, lines: seq<string>, n: string)
    ensures LineHeaders(m[LENGTH := n], lines)[LENGTH := n] == LineHeaders(m, lines)[LENGTH := n]
    decreases |lines|
  {
    hide HeaderLine;
    if lines != [] {
      var (key, val) := HeaderLine(lines[0]);
      if key == LENGTH {
        assert m[LENGTH := n][key := val] == m[key := val];
      } else {
        assert m[LENGTH := n][key := val] == m[key := val][LENGTH := n];
        LengthLast(m[key := val], lines[1..], n);
      }
    }
  }

  // ----- the whole text -----

  lemma Shifted(a: string, s: string, pat: string, j: nat)
    ensures At(a + s, pat, |a| + j) <==> At(s, pat, j)
  {
    if j + |pat| <= |s| {
      assert (a + s)[|a| + j..|a| + j + |pat|] == s[j..j + |pat|];
    }
  }

  /** No blank line before the end of the header lines. */
  lemma {:induction false} NoBlankInside(lines: seq<string>, body: string, j: nat)
    requires lines != [] && (forall i :: 0 <= i < |lines| ==> LineOk(lines[i])) && j < |Joined(lines)|
    ensures !At(Joined(lines) + (BLANK + body), BLANK, j)
    decreases |lines|
  {
    var line, text := lines[0], Joined(lines) + (BLANK + body);
    var n := |line|;
    if j < n {
      assert text[j] == line[j] && line[j] in line;
      NotAt(text, BLANK, j);
    } else {
      var rest := Joined(lines[1..]) + (BLANK + body);
      assert text == (line + CRLF) + rest;
      if j >= n + 2 {
        NoBlankInside(lines[1..], body, j - n - 2);
        Shifted(line + CRLF, rest, BLANK, j - n - 2);
      } else if j == n + 1 {
        NotAt(text, BLANK, j);
      } else {
        assert text[n + 2] == Joined(lines[1..])[0] == lines[1][0] && lines[1][0] in lines[1];
        ThirdDiffers(text, n);
      }
    }
  }

  lemma ThirdDiffers(s: string, j: nat)
    requires j + 2 < |s| && s[j + 2] != '\r'
    ensures !At(s, BLANK, j)
  {
    if j + 4 <= |s| {
      assert s[j..j + 4][2] == s[j + 2];
    }
  }

  lemma StartHasNoBreak(m: Method, path: string, v: Version, i: nat)
    requires Clean(path) && i < |PrintStart(m, path, v)|
    ensures PrintStart(m, path, v)[i] != '\r'
  {
    MethodConversion("", m);
    VersionConversion("", v);
    var ms, vs := MethodToString(m), VersionToString(v);
    hide MethodToString, VersionToString;
    var s := ms + (" " + (path + (" " + vs)));
    assert s[i] == if i < |ms| then ms[i] else if i == |ms| then ' '
                   else if i < |ms| + 1 + |path| then path[i - |ms| - 1] else if i == |ms| + 1 + |path| then ' '
                   else vs[i - |ms| - |path| - 2];
  }

  lemma StartEnd(m: Method, path: string, v: Version, rest: string)
    requires Clean(path)
    ensures Find(PrintStart(m, path, v) + (CRLF + rest), CRLF, 0) == Some(|PrintStart(m, path, v)|)
  {
    var start := PrintStart(m, path, v);
    var text := start + (CRLF + rest);
    forall j | 0 <= j < |start| ensures !At(text, CRLF, j) {
      StartHasNoBreak(m, path, v, j);
      NotAt(text, CRLF, j);
    }
    assert text[|start|..|start| + 2] == CRLF;
    FindIs(text, CRLF, 0, |start|);
  }

  lemma BlankAfterHeaders(start: string, lines: seq<string>, body: string)
    requires lines != [] && forall i :: 0 <= i < |lines| ==> LineOk(lines[i])
    ensures var text := start + (CRLF + (PrintLines(lines) + (CRLF + body)));
            var p := |start| + 2;
            var q := p + |Joined(lines)|;
            && q + 4 <= |text| && Find(text, BLANK, p) == Some(q)
            && text[p..q] == Joined(lines) && text[q + 4..] == body
  {
    JoinedIsPrinted(lines);
    hide PrintLines, Joined, LineOk, Find;
    var joined := Joined(lines);
    var text := start + (CRLF + (PrintLines(lines) + (CRLF + body)));
    var p := |start| + 2;
    var q := p + |joined|;
    BlankInBetween(start, PrintLines(lines), joined, body);
    hide At;
    forall j | p <= j < q ensures !At(text, BLANK, j) {
      NoBlankInside(lines, body, j - p);
      Shifted(start + CRLF, joined + (BLANK + body), BLANK, j - p);
    }
    FindIs(text, BLANK, p, q);
  }

  lemma BlankInBetween(start: string, printed: string, joined: string, body: string)
    requires printed == joined + CRLF
    ensures var text := start + (CRLF + (printed + (CRLF + body)));
            var p := |start| + 2;
            var q := p + |joined|;
            && text == (start + CRLF) + (joined + (BLANK + body)) && |text| == q + 4 + |body|
            && At(text, BLANK, q) && text[p..q] == joined && text[q + 4..] == body
  {
    var text := start + (CRLF + (printed + (CRLF + body)));
    var q := |start| + 2 + |joined|;
    assert printed + (CRLF + body) == joined + (BLANK + body);
    assert text == ((start + CRLF) + joined) + (BLANK + body);
    assert text[q..] == BLANK + body;
    assert text[q..q + 4] == BLANK;
  }

  lemma CutIs(text: string, p: nat, q: nat)
    requires p <= |text| && Find(text, CRLF, 0) == Some(p) && p + 2 <= q && q + 4 <= |text|
        && Find(text, BLANK, p + 2) == Some(q)
    ensures Split(text) == Some((text[..p], text[p + 2..q], text[q + 4..]))
  {
    hide At;
  }

  lemma SplitMessage(start: string, lines: seq<string>, body: string)
    requires lines != [] && forall i :: 0 <= i < |lines| ==> LineOk(lines[i])
    requires Find(Message(start, lines, body), CRLF, 0) == Some(|start|)
    ensures Split(Message(start, lines, body)) == Some((start, Joined(lines), body))
  {
    hide PrintLines, Joined, LineOk, At, Split, Find;
    BlankAfterHeaders(start, lines, body);
    Prefix(start, CRLF + (PrintLines(lines) + (CRLF + body)));
    var text := Message(start, lines, body);
    hide Message;
    CutIs(text, |start|, |start| + 2 + |Joined(lines)|);
  }

  lemma SplitPrinted(m: Method, path: string, v: Version, lines: seq<string>, body: string)
    requires Clean(path) && lines != [] && forall i :: 0 <= i < |lines| ==> LineOk(lines[i])
    ensures Split(Print(m, path, v, lines, body)) == Some((PrintStart(m, path, v), Joined(lines), body))
  {
    hide PrintStart, PrintLines, Joined, Clean, LineOk, At, Split, Find;
    StartEnd(m, path, v, PrintLines(lines) + (CRLF + body));
    SplitMessage(PrintStart(m, path, v), lines, body);
  }

  lemma Prefix(a: string, b: string)
    ensures (a + b)[..|a|] == a
  {
  }

  /** Parsing any text of this form, for HTTP/0.9 to 1.1, takes it apart exactly: only header lines of
      an earlier use of the same object would stay. */
  lemma ParseText(req: Request, m: Method, path: string, v: Version, lines: seq<string>, body: string)
    requires path != "" && Clean(path) && v != Http20
    requires lines != [] && forall i :: 0 <= i < |lines| ==> LineOk(lines[i])
    ensures FromString(req, Print(m, path, v, lines, body)) ==
            (Request(m, path, v, LineHeaders(req.headers, lines)[LENGTH := Decimal(|body|)], body), Parsed)
  {
    hide Split, StartLine, HeaderLines, Decimal, Print, PrintStart, Joined, LineHeaders, LineOk, Clean;
    SplitPrinted(m, path, v, lines, body);
    StartLineOf(req, m, path, v);
    var req' := req.(verb := m, path := path, version := v);
    HeaderLinesOf(req', lines);
    assert LineHeaders(req'.headers, lines)[LENGTH := Decimal(|req.content|)][LENGTH := Decimal(|body|)] ==
           LineHeaders(req'.headers, lines)[LENGTH := Decimal(|body|)];
  }

  /** A version that prints as HTTP/2.0 is refused, after it has been stored. */
  lemma Version2Refused(req: Request, m: Method, path: string, lines: seq<string>, body: string)
    requires path != "" && Clean(path)
    ensures var (req', outcome) := FromString(req, Print(m, path, Http20, lines, body));
            outcome.Unsupported? && req' == req.(verb := m, path := path, version := Http20)
  {
    var start, text := PrintStart(m, path, Http20), Print(m, path, Http20, lines, body);
    StartEnd(m, path, Http20, PrintLines(lines) + (CRLF + body));
    StartLineOf(req, m, path, Http20);
    assert text[..|start|] == start;
    hide StartLine, PrintStart, Print;
  }

  /** Without header lines the body is looked for behind a second blank line. So the printed body
      comes back exactly if there are header lines, or no body. */
  lemma BodyExactly(req: Request, m: Method, path: string, v: Version, lines: seq<string>, body: string)
    requires path != "" && Clean(path) && v != Http20
    requires forall i :: 0 <= i < |lines| ==> LineOk(lines[i])
    ensures var (req', outcome) := FromString(req, Print(m, path, v, lines, body));
            outcome == Parsed && (req'.content == body <==> lines != [] || body == "")
  {
    if lines != [] {
      ParseText(req, m, path, v, lines, body);
    } else {
      StartEnd(m, path, v, PrintLines([]) + (CRLF + body));
      StartLineOf(req, m, path, v);
      hide StartLine, HeaderLines, PrintStart, Decimal, Clean, LineOk;
      SplitWithoutLines(PrintStart(m, path, v), body);
      hide Split, Message;
    }
  }

  lemma SplitWithoutLines(start: string, body: string)
    requires Find(start + (CRLF + (PrintLines([]) + (CRLF + body))), CRLF, 0) == Some(|start|)
    ensures var parts := Split(Message(start, [], body));
            && parts.Some? && parts.value.0 == start && (parts.value.2 == body <==> body == "")
            && (body == "" ==> parts.value.1 == "")
  {
    var text := Message(start, [], body);
    assert text[..|start|] == start && |text| == |start| + 4 + |body|;
  }

  // ----- the header map -----

  predicate DistinctKeys(hs: seq<(string, string)>) {
    forall i, j :: 0 <= i < j < |hs| ==> hs[i].0 != hs[j].0
  }

  /** Header lines with distinct keys are all in the map, and nothing else is new in it. */
  lemma {:induction false} HeadersExact(m: map<string, string>, hs: seq<(string, string)>)
    requires DistinctKeys(hs)
    ensures forall i :: 0 <= i < |hs| ==> hs[i].0 in Headers(m, hs) && Headers(m, hs)[hs[i].0] == hs[i].1
    ensures forall k :: (forall i :: 0 <= i < |hs| ==> hs[i].0 != k) ==>
              (k in Headers(m, hs) <==> k in m) && (k in m ==> Headers(m, hs)[k] == m[k])
    decreases |hs|
  {
    if hs != [] {
      var h, rest := hs[0], hs[1..];
      var m' := m[h.0 := h.1];
      HeadersExact(m', rest);
      forall i | 0 <= i < |hs| ensures hs[i].0 in Headers(m, hs) && Headers(m, hs)[hs[i].0] == hs[i].1 {
        if i > 0 {
          assert rest[i - 1] == hs[i];
        } else {
          assert forall j :: 0 <= j < |rest| ==> rest[j] == hs[j + 1] && rest[j].0 != h.0;
        }
      }
      forall k | forall i :: 0 <= i < |hs| ==> hs[i].0 != k
        ensures (k in Headers(m, hs) <==> k in m) && (k in m ==> Headers(m, hs)[k] == m[k])
      {
        assert hs[0].0 != k && forall j :: 0 <= j < |rest| ==> rest[j] == hs[j + 1] && rest[j].0 != k;
      }
    }
  }

  lemma {:induction false} ColonHeaders(m: map<string, string>, hs: seq<(string, string)>)
    requires forall i :: 0 <= i < |hs| ==> HeaderOk(hs[i])
    ensures LineHeaders(m, ColonLines(hs)) == Headers(m, SqueezedAll(hs))
    ensures forall i :: 0 <= i < |hs| ==> LineOk(ColonLines(hs)[i])
    decreases |hs|
  {
    forall i | 0 <= i < |hs| ensures LineOk(ColonLines(hs)[i]) {
      PlainLines(hs[i]);
    }
    if hs != [] {
      var h := Squeezed(hs[0]);
      ColonLineOf(hs[0]);
      hide HeaderLine, ColonLine, LineOk, Squeezed;
      ColonHeaders(m[h.0 := h.1], hs[1..]);
      assert ColonLines(hs)[1..] == ColonLines(hs[1..]) && SqueezedAll(hs)[1..] == SqueezedAll(hs[1..]);
    }
  }

  /** The later of two lines with the same key counts. */
  lemma {:induction false} LastLineCounts(m: map<string, string>, hs: seq<(string, string)>, i: nat)
    requires i < |hs| && forall j :: i < j < |hs| ==> hs[j].0 != hs[i].0
    ensures hs[i].0 in Headers(m, hs) && Headers(m, hs)[hs[i].0] == hs[i].1
    decreases |hs|
  {
    var rest := hs[1..];
    if i == 0 {
      HeadersOther(m[hs[0].0 := hs[0].1], rest, hs[0].0);
    } else {
      assert rest[i - 1] == hs[i];
      LastLineCounts(m[hs[0].0 := hs[0].1], rest, i - 1);
    }
  }

  /** The header lines of a map that was empty, and what `SetContent` adds. */
  lemma HeadersRead(hs: seq<(string, string)>, length: string)
    ensures var r := Headers(map[], hs)[LENGTH := length];
            && (forall k :: k in r <==> k == LENGTH || exists i :: 0 <= i < |hs| && hs[i].0 == k)
            && (forall i :: 0 <= i < |hs| && hs[i].0 != LENGTH && (forall j :: i < j < |hs| ==> hs[j].0 != hs[i].0) ==>
                  hs[i].0 in r && r[hs[i].0] == hs[i].1)
  {
    var r := Headers(map[], hs);
    forall k ensures k in r <==> exists i :: 0 <= i < |hs| && hs[i].0 == k {
      if exists i :: 0 <= i < |hs| && hs[i].0 == k {
        HeadersLast(map[], hs, k);
      } else {
        HeadersOther(map[], hs, k);
      }
    }
    forall i | 0 <= i < |hs| && forall j :: i < j < |hs| ==> hs[j].0 != hs[i].0
      ensures hs[i].0 in r && r[hs[i].0] == hs[i].1
    {
      LastLineCounts(map[], hs, i);
    }
  }

  ghost predicate LastOfItsKey(hs: seq<(string, string)>, i: nat)
    requires i < |hs|
  {
    forall j :: i < j < |hs| ==> Squeeze(hs[j].0) != Squeeze(hs[i].0)
  }

  /** Parsing a request with printed header lines gives back the method, the path, the version, the body, and the
      keys and values without their white space: of lines with the same key the last one, and nothing else
      but the Content-Length, which is the length of the body. */
  lemma ParsePrinted(m: Method, path: string, v: Version, hs: seq<(string, string)>, body: string)
    requires path != "" && Clean(path) && v != Http20
    requires hs != [] && forall i :: 0 <= i < |hs| ==> HeaderOk(hs[i])
    ensures var (req, outcome) := FromString(FRESH, Print(m, path, v, ColonLines(hs), body));
            && outcome == Parsed && req.verb == m && req.path == path && req.version == v && req.content == body
            && (forall k :: k in req.headers <==> k == LENGTH || exists i :: 0 <= i < |hs| && Squeeze(hs[i].0) == k)
            && (forall i :: 0 <= i < |hs| && Squeeze(hs[i].0) != LENGTH && LastOfItsKey(hs, i) ==>
                  req.headers[Squeeze(hs[i].0)] == Squeeze(hs[i].1))
            && forall n :: req.headers[LENGTH] == Decimal(n) <==> n == |body|
  {
    ColonHeaders(map[], hs);
    ParseText(FRESH, m, path, v, ColonLines(hs), body);
    HeadersRead(SqueezedAll(hs), Decimal(|body|));
    forall n | Decimal(n) == Decimal(|body|) ensures n == |body| {
      DecimalRoundTrip(n);
      DecimalRoundTrip(|body|);
    }
    hide FromString, Print, Headers, LineHeaders, ColonLines, HeaderOk, Clean, Decimal, Squeeze;
    var all := SqueezedAll(hs);
    assert forall i :: 0 <= i < |hs| ==> all[i].0 == Squeeze(hs[i].0) && all[i].1 == Squeeze(hs[i].1);
  }

  /** The headers that a request printed by its own `ToString` is parsed to. */
  function Merged(hs: seq<(string, string)>): (r: seq<(string, string)>)
    ensures |r| == |hs| && forall i :: 0 <= i < |hs| ==> r[i] == SpaceHeader(hs[i])
  {
    seq(|hs|, i requires 0 <= i < |hs| => SpaceHeader(hs[i]))
  }

  lemma {:induction false} SpaceHeaders(m: map<string, string>, hs: seq<(string, string)>)
    requires forall i :: 0 <= i < |hs| ==> HeaderOk(hs[i])
    ensures LineHeaders(m, SpaceLines(hs)) == Headers(m, Merged(hs))
    ensures forall i :: 0 <= i < |hs| ==> LineOk(SpaceLines(hs)[i])
    decreases |hs|
  {
    forall i | 0 <= i < |hs| ensures LineOk(SpaceLines(hs)[i]) {
      PlainLines(hs[i]);
    }
    if hs != [] {
      var h := SpaceHeader(hs[0]);
      SpaceLineOf(hs[0]);
      hide HeaderLine, SpaceLine, SpaceHeader, LineOk;
      SpaceHeaders(m[h.0 := h.1], hs[1..]);
      assert SpaceLines(hs)[1..] == SpaceLines(hs[1..]) && Merged(hs)[1..] == Merged(hs[1..]);
    }
  }

  /** A request printed by its own `ToString`, for any header values. */
  lemma RequestPrinterMergesHeaders(req: Request, m: Method, path: string, v: Version, hs: seq<(string, string)>,
      body: string)
    requires path != "" && Clean(path) && v != Http20
    requires hs != [] && forall i :: 0 <= i < |hs| ==> HeaderOk(hs[i])
    ensures FromString(req, Print(m, path, v, SpaceLines(hs), body)) ==
            (Request(m, path, v, Headers(req.headers, Merged(hs))[LENGTH := Decimal(|body|)], body), Parsed)
  {
    SpaceHeaders(req.headers, hs);
    ParseText(req, m, path, v, SpaceLines(hs), body);
  }

  /** All parts of a request come back: exactly its headers, and Content-Length besides. */
  ghost predicate CameBack(r: (Request, Outcome), m: Method, path: string, v: Version, hs: seq<(string, string)>,
      body: string)
  {
    && r.1 == Parsed && r.0.verb == m && r.0.path == path && r.0.version == v && r.0.content == body
    && SameHeaders(r.0.headers, hs)
  }

  ghost predicate SameHeaders(headers: map<string, string>, hs: seq<(string, string)>) {
    headers.Keys == Keys(hs) + {LENGTH} && forall i :: 0 <= i < |hs| ==> headers[hs[i].0] == hs[i].1
  }

  /** A header whose own value is its key, or the Content-Length. */
  predicate Echo(h: (string, string)) {
    h.0 == LENGTH || h.1 == h.0
  }

  lemma {:induction false} HeadersFrom(m: map<string, string>, hs: seq<(string, string)>, k: string)
    requires k in Headers(m, hs) && k !in m
    ensures exists i :: 0 <= i < |hs| && hs[i] == (k, Headers(m, hs)[k])
    decreases |hs|
  {
    if hs != [] {
      var h, rest := hs[0], hs[1..];
      if exists i :: 0 <= i < |rest| && rest[i].0 == k {
        HeadersLast(m[h.0 := h.1], rest, k);
        var i :| 0 <= i < |rest| && rest[i] == (k, Headers(m[h.0 := h.1], rest)[k]);
        assert hs[i + 1] == rest[i];
      } else {
        HeadersOther(m[h.0 := h.1], rest, k);
      }
    }
  }

  lemma {:induction false} HeadersOther(m: map<string, string>, hs: seq<(string, string)>, k: string)
    requires forall i :: 0 <= i < |hs| ==> hs[i].0 != k
    ensures (k in Headers(m, hs) <==> k in m) && (k in m ==> Headers(m, hs)[k] == m[k])
    decreases |hs|
  {
    if hs != [] { HeadersOther(m[hs[0].0 := hs[0].1], hs[1..], k); }
  }

  /** The value of a key that has a line is that of one of its lines. */
  lemma {:induction false} HeadersLast(m: map<string, string>, hs: seq<(string, string)>, k: string)
    requires exists i :: 0 <= i < |hs| && hs[i].0 == k
    ensures k in Headers(m, hs) && exists i :: 0 <= i < |hs| && hs[i] == (k, Headers(m, hs)[k])
    decreases |hs|
  {
    var h, rest := hs[0], hs[1..];
    assert forall i :: 1 <= i < |hs| ==> hs[i] == rest[i - 1];
    if exists i :: 0 <= i < |rest| && rest[i].0 == k {
      HeadersLast(m[h.0 := h.1], rest, k);
      var i :| 0 <= i < |rest| && rest[i] == (k, Headers(m[h.0 := h.1], rest)[k]);
      assert hs[i + 1] == rest[i];
    } else {
      HeadersOther(m[h.0 := h.1], rest, k);
      assert hs[0] == (k, h.1);
    }
  }

  lemma {:induction false} Shortest(hs: seq<(string, string)>) returns (i: nat)
    requires exists j :: 0 <= j < |hs| && !Echo(hs[j])
    ensures i < |hs| && !Echo(hs[i]) && forall j :: 0 <= j < |hs| && !Echo(hs[j]) ==> |hs[i].0| <= |hs[j].0|
  {
    var rest := hs[1..];
    assert forall j :: 0 <= j < |rest| ==> rest[j] == hs[j + 1];
    assert forall j :: 1 <= j < |hs| ==> hs[j] == rest[j - 1];
    if exists j :: 0 <= j < |rest| && !Echo(rest[j]) {
      i := Shortest(rest);
      i := if !Echo(hs[0]) && |hs[0].0| <= |rest[i].0| then 0 else i + 1;
    } else {
      i := 0;
    }
  }

  lemma {:induction false} Longest(hs: seq<(string, string)>) returns (i: nat)
    requires hs != []
    ensures i < |hs| && forall j :: 0 <= j < |hs| ==> |hs[j].0| <= |hs[i].0|
  {
    i := 0;
    if |hs| > 1 {
      i := Longest(hs[1..]);
      i := if |hs[0].0| >= |hs[1..][i].0| then 0 else i + 1;
    }
  }

  lemma NoColonMerges(h: (string, string))
    requires TightHeader(h) && ':' !in h.1
    ensures SpaceHeader(h) == (h.0 + h.1, h.0 + h.1)
  {
    TightSpaceHeader(h);
    NoColonAt(h.1, "");
    assert h.1 + "" == h.1;
  }

  /** No line restores the header with the shortest key among those that are not an echo. */
  lemma NotRestored(hs: seq<(string, string)>, i: nat, j: nat, n: nat)
    requires i < |hs| && j < |hs| && (forall k :: 0 <= k < |hs| ==> TightHeader(hs[k])) && DistinctKeys(hs)
    requires !Echo(hs[i]) && (|hs[j].0| < |hs[i].0| ==> Echo(hs[j]))
    requires hs[j].0 == LENGTH ==> hs[j].1 == Decimal(n)
    ensures SpaceHeader(hs[j]) != hs[i]
  {
    var h := hs[j];
    TightSpaceHeader(h);
    hide Squeeze, SpaceHeader;
    if SpaceHeader(h) == hs[i] {
      assert h.0 <= hs[i].0;
      if i != j {
        assert ':' !in h.1;
        NoColonMerges(h);
      }
    }
  }

  /** A line that is an echo gives a key that is longer than its own, and not Content-Length. */
  lemma EchoGrows(h: (string, string), n: nat)
    requires TightHeader(h) && Echo(h) && (h.0 == LENGTH ==> h.1 == Decimal(n))
    ensures |SpaceHeader(h).0| > |h.0| && SpaceHeader(h).0 != LENGTH
  {
    assert ':' !in h.1;
    NoColonMerges(h);
    TwiceIsNotLength(h.0);
  }

  lemma TwiceIsNotLength(k: string)
    ensures k + k != LENGTH
  {
    if |k| == 7 {
      assert (k + k)[0] == (k + k)[7];
    }
  }

  lemma TooLong(hs: seq<(string, string)>, i: nat, k: string)
    requires i < |hs| && |hs[i].0| < |k| && forall j :: 0 <= j < |hs| ==> |hs[j].0| <= |hs[i].0|
    ensures k !in Keys(hs)
  {
  }

  /** If all headers are echoes, the line with the longest key gives a key that is new. */
  lemma LongestIsNew(hs: seq<(string, string)>, n: nat)
    requires hs != [] && forall i :: 0 <= i < |hs| ==> TightHeader(hs[i]) && Echo(hs[i])
    requires forall i :: 0 <= i < |hs| && hs[i].0 == LENGTH ==> hs[i].1 == Decimal(n)
    ensures Headers(map[], Merged(hs)).Keys - {LENGTH} - Keys(hs) != {}
  {
    var i := Longest(hs);
    EchoGrows(hs[i], n);
    var k := Merged(hs)[i].0;
    HeadersLast(map[], Merged(hs), k);
    hide SpaceHeader, TightHeader, Decimal, Headers, Keys;
    TooLong(hs, i, k);
    assert k in Headers(map[], Merged(hs)).Keys - {LENGTH} - Keys(hs);
  }

  /** If not, the shortest key of one that is no echo is gone, or has another value. */
  lemma ShortestIsLost(hs: seq<(string, string)>, n: nat) returns (i: nat)
    requires (forall k :: 0 <= k < |hs| ==> TightHeader(hs[k])) && DistinctKeys(hs)
    requires exists j :: 0 <= j < |hs| && !Echo(hs[j])
    requires forall k :: 0 <= k < |hs| && hs[k].0 == LENGTH ==> hs[k].1 == Decimal(n)
    ensures i < |hs| && hs[i].0 != LENGTH
    ensures var r := Headers(map[], Merged(hs)); hs[i].0 in r ==> r[hs[i].0] != hs[i].1
  {
    i := Shortest(hs);
    var k, r := hs[i].0, Headers(map[], Merged(hs));
    if k in r {
      HeadersFrom(map[], Merged(hs), k);
      var j :| 0 <= j < |hs| && Merged(hs)[j] == (k, r[k]);
      hide SpaceHeader, TightHeader, Decimal, Headers;
      NotRestored(hs, i, j, n);
    }
  }

  lemma NeverSameHeaders(hs: seq<(string, string)>, n: nat)
    requires hs != [] && (forall i :: 0 <= i < |hs| ==> TightHeader(hs[i])) && DistinctKeys(hs)
    ensures !SameHeaders(Headers(map[], Merged(hs))[LENGTH := Decimal(n)], hs)
  {
    hide SpaceHeader, TightHeader, Decimal, Headers, DistinctKeys, Keys;
    var base := Headers(map[], Merged(hs));
    if j :| 0 <= j < |hs| && hs[j].0 == LENGTH && hs[j].1 != Decimal(n) {
      assert base[LENGTH := Decimal(n)][hs[j].0] != hs[j].1;
    } else if exists j :: 0 <= j < |hs| && !Echo(hs[j]) {
      var i := ShortestIsLost(hs, n);
      KeyIsThere(hs, i);
    } else {
      LongestIsNew(hs, n);
      var k :| k in base.Keys - {LENGTH} - Keys(hs);
      assert k in base[LENGTH := Decimal(n)].Keys;
    }
  }

  lemma KeyIsThere(hs: seq<(string, string)>, i: nat)
    requires i < |hs|
    ensures hs[i].0 in Keys(hs)
  {
  }

  /** What is parsed has no white space. */
  lemma ParsedIsTight(hs: seq<(string, string)>, k: string)
    requires k in Headers(map[], Merged(hs))
    ensures Clean(k) && Clean(Headers(map[], Merged(hs))[k])
  {
    HeadersFrom(map[], Merged(hs), k);
    var i :| 0 <= i < |hs| && Merged(hs)[i] == (k, Headers(map[], Merged(hs))[k]);
    var h := hs[i];
    match Find(h.1, ":", 0)
    case None => SqueezeIsClean(h.0 + h.1);
    case Some(p) =>
      SqueezeIsClean(h.0 + h.1[..p]);
      SqueezeIsClean(h.1[p + 1..]);
  }

  /** A header with white space in it does not come back. */
  lemma LooseIsLost(hs: seq<(string, string)>, i: nat, n: nat)
    requires i < |hs| && !(Clean(hs[i].0) && Clean(hs[i].1))
    ensures !SameHeaders(Headers(map[], Merged(hs))[LENGTH := Decimal(n)], hs)
  {
    var base := Headers(map[], Merged(hs));
    KeyIsThere(hs, i);
    var k := hs[i].0;
    if k in base { ParsedIsTight(hs, k); }
    assert Clean(LENGTH) && Clean(Decimal(n));
    hide Headers, Merged, Decimal, Keys;
  }

  lemma OwnHeadersLost(hs: seq<(string, string)>, n: nat)
    requires hs != [] && (forall i :: 0 <= i < |hs| ==> HeaderOk(hs[i])) && DistinctKeys(hs)
    ensures !SameHeaders(Headers(map[], Merged(hs))[LENGTH := Decimal(n)], hs)
  {
    if i: nat :| i < |hs| && !(Clean(hs[i].0) && Clean(hs[i].1)) {
      LooseIsLost(hs, i, n);
    } else {
      assert Squeeze("") == "";
      hide SameHeaders;
      NeverSameHeaders(hs, n);
    }
  }

  lemma EmptyCameBack(m: Method, path: string, v: Version)
    requires path != "" && Clean(path) && v != Http20
    ensures CameBack(FromString(FRESH, Print(m, path, v, [], "")), m, path, v, [], "")
  {
    EmptyParsed(m, path, v);
    OnlyLength(Decimal(|""|));
    hide *;
  }

  lemma OnlyLength(value: string)
    ensures SameHeaders(map[LENGTH := value], [])
  {
    assert Keys([]) + {LENGTH} == {LENGTH};
  }

  lemma EmptyParsed(m: Method, path: string, v: Version)
    requires path != "" && Clean(path) && v != Http20
    ensures FromString(FRESH, Print(m, path, v, [], "")) ==
            (Request(m, path, v, map[LENGTH := Decimal(|""|)], ""), Parsed)
  {
    StartEnd(m, path, v, PrintLines([]) + (CRLF + ""));
    StartLineOf(FRESH, m, path, v);
    hide StartLine, PrintStart, Decimal, Clean;
    SplitWithoutLines(PrintStart(m, path, v), "");
    hide Split, Message;
  }

  /** Exactly when a request survives being printed by its own `ToString` and parsed: method, path, version,
      body and all headers come back if and only if there is no header and no body, and the version is
      not HTTP/2.0. */
  lemma OwnPrintExactly(m: Method, path: string, v: Version, hs: seq<(string, string)>, body: string)
    requires path != "" && Clean(path)
    requires (forall i :: 0 <= i < |hs| ==> HeaderOk(hs[i])) && DistinctKeys(hs)
    ensures CameBack(FromString(FRESH, Print(m, path, v, SpaceLines(hs), body)), m, path, v, hs, body)
            <==> hs == [] && body == "" && v != Http20
  {
    var lines := SpaceLines(hs);
    if v == Http20 {
      Version2Refused(FRESH, m, path, lines, body);
      hide FromString, Print;
    } else if hs != [] {
      RequestPrinterMergesHeaders(FRESH, m, path, v, hs, body);
      hide FromString, Print, Headers;
      OwnHeadersLost(hs, |body|);
    } else if body != "" {
      BodyExactly(FRESH, m, path, v, lines, body);
      hide FromString, Print;
    } else {
      assert lines == [];
      EmptyCameBack(m, path, v);
    }
  }

  // ----- responses -----

  datatype Response = Response(status: nat, version: Version, headers: map<string, string>, content: string)

  function NewResponse(status: nat): Response {
    Response(status, Http10, map[], "")
  }

  function WithContent(res: Response, content: string): Response {
    res.(content := content, headers := res.headers[LENGTH := Decimal(|content|)])
  }

  function StatusCodeToString(status: nat): (s: string)
    ensures '\r' !in s
  {
    if status == 100 then "Continue"
    else if status == 200 then "OK"
    else if status == 202 then "Accepted"
    else if status == 301 then "Moved Permanently"
    else if status == 302 then "Found"
    else if status == 400 then "Bad Request"
    else if status == 403 then "Forbidden"
    else if status == 404 then "Not Found"
    else if status == 405 then "Method Not Allowed"
    else if status == 418 then "I'm a Teapot"
    else if status == 500 then "Internal Server Error"
    else if status == 501 then "Not Implemented"
    else if status == 502 then "Bad Gateway"
    else ""
  }

  function StatusLine(res: Response): string {
    VersionToString(res.version) + (" " + (Decimal(res.status) + (" " + StatusCodeToString(res.status))))
  }

  function Keys(hs: seq<(string, string)>): set<string> {
    set i | 0 <= i < |hs| :: hs[i].0
  }

  /** The headers of a map in some order, each once, but for those that are still to come. */
  predicate ListsBut(hs: seq<(string, string)>, m: map<string, string>, rest: set<string>) {
    && DistinctKeys(hs) && rest <= m.Keys && Keys(hs) == m.Keys - rest
    && forall i :: 0 <= i < |hs| ==> hs[i].0 in m && m[hs[i].0] == hs[i].1
  }

  predicate Lists(hs: seq<(string, string)>, m: map<string, string>) {
    ListsBut(hs, m, {})
  }

  lemma ListOne(hs: seq<(string, string)>, m: map<string, string>, rest: set<string>, k: string)
    requires ListsBut(hs, m, rest) && k in rest
    ensures ListsBut(hs + [(k, m[k])], m, rest - {k})
  {
    var hs' := hs + [(k, m[k])];
    assert hs'[|hs|].0 == k && forall i :: 0 <= i < |hs| ==> hs'[i] == hs[i] && hs'[i].0 in Keys(hs);
    assert Keys(hs') == Keys(hs) + {k};
  }

  /** `operator<` of `std::string`, by which a `std::map` keeps its keys. */
  predicate Before(a: string, b: string) {
    if b == "" then false
    else if a == "" then true
    else a[0] < b[0] || (a[0] == b[0] && Before(a[1..], b[1..]))
  }

  lemma {:induction false} BeforeIsTotal(a: string, b: string)
    ensures Before(a, b) || Before(b, a) <==> a != b
    ensures Before(a, b) ==> !Before(b, a)
  {
    if a != "" && b != "" {
      BeforeIsTotal(a[1..], b[1..]);
      assert a == [a[0]] + a[1..] && b == [b[0]] + b[1..];
    }
  }

  lemma {:induction false} BeforeIsTransitive(a: string, b: string, c: string)
    requires Before(a, b) && Before(b, c)
    ensures Before(a, c)
  {
    if a != "" && a[0] == b[0] == c[0] {
      BeforeIsTransitive(a[1..], b[1..], c[1..]);
    }
  }

  predicate InKeyOrder(hs: seq<(string, string)>) {
    forall i, j :: 0 <= i < j < |hs| ==> Before(hs[i].0, hs[j].0)
  }

  /** What a loop over the header map meets: every header once, in the order of the keys. */
  predicate Iterates(hs: seq<(string, string)>, m: map<string, string>) {
    Lists(hs, m) && InKeyOrder(hs)
  }

  lemma FirstKey(hs: seq<(string, string)>, k: string)
    requires InKeyOrder(hs) && k in Keys(hs)
    ensures k == hs[0].0 || Before(hs[0].0, k)
    ensures Keys(hs[1..]) == Keys(hs) - {hs[0].0}
  {
    assert forall i :: 0 < i < |hs| ==> hs[1..][i - 1] == hs[i];
    forall i | 0 < i < |hs| ensures hs[i].0 != hs[0].0 {
      BeforeIsTotal(hs[0].0, hs[i].0);
    }
  }

  lemma {:induction false} SameKeysSameOrder(hs: seq<(string, string)>, hs': seq<(string, string)>)
    requires InKeyOrder(hs) && InKeyOrder(hs') && Keys(hs) == Keys(hs')
    ensures |hs| == |hs'| && forall i :: 0 <= i < |hs| ==> hs[i].0 == hs'[i].0
  {
    NoKeys(hs);
    NoKeys(hs');
    if hs != [] {
      assert hs' != [];
      assert hs[0].0 in Keys(hs) && hs'[0].0 in Keys(hs');
      FirstKey(hs, hs'[0].0);
      FirstKey(hs', hs[0].0);
      BeforeIsTotal(hs[0].0, hs'[0].0);
      SameKeysSameOrder(hs[1..], hs'[1..]);
      assert forall i :: 0 < i < |hs| ==> hs[i] == hs[1..][i - 1] && hs'[i] == hs'[1..][i - 1];
    }
  }

  /** A map is met in one order only, so that its printed form is determined. */
  lemma OneOrder(hs: seq<(string, string)>, hs': seq<(string, string)>, m: map<string, string>)
    requires Iterates(hs, m) && Iterates(hs', m)
    ensures hs == hs'
  {
    SameKeysSameOrder(hs, hs');
    assert forall i :: 0 <= i < |hs| ==> hs[i] == (hs[i].0, m[hs[i].0]) == hs'[i];
  }

  /** The header with the least key of those still to come. */
  lemma IterateOne(hs: seq<(string, string)>, m: map<string, string>, rest: set<string>, k: string)
    requires ListsBut(hs, m, rest) && InKeyOrder(hs) && k in rest
    requires forall i, k' :: 0 <= i < |hs| && k' in rest ==> Before(hs[i].0, k')
    requires forall k' :: k' in rest && k' != k ==> Before(k, k')
    ensures var hs' := hs + [(k, m[k])];
            && ListsBut(hs', m, rest - {k}) && InKeyOrder(hs')
            && forall i, k' :: 0 <= i < |hs'| && k' in rest - {k} ==> Before(hs'[i].0, k')
  {
    ListOne(hs, m, rest, k);
  }

  /** `HttpResponse::ToString`, with the header lines in the order of `hs`. */
  function PrintResponse(res: Response, hs: seq<(string, string)>, sendContent: bool): string {
    Message(StatusLine(res), ColonLines(hs), if sendContent then res.content + CRLF else "")
  }

  lemma StatusLineEnd(res: Response, rest: string)
    ensures Find(StatusLine(res) + (CRLF + rest), CRLF, 0) == Some(|StatusLine(res)|)
  {
    VersionConversion("", res.version);
    var v, d, t := VersionToString(res.version), Decimal(res.status), StatusCodeToString(res.status);
    var start := StatusLine(res);
    var text := start + (CRLF + rest);
    hide VersionToString, Decimal, StatusCodeToString;
    forall j | 0 <= j < |start| ensures !At(text, CRLF, j) {
      assert start[j] == if j < |v| then v[j] else if j == |v| then ' ' else if j < |v| + 1 + |d| then d[j - |v| - 1]
                         else if j == |v| + 1 + |d| then ' ' else t[j - |v| - |d| - 2];
      NotAt(text, CRLF, j);
    }
    assert text[|start|..|start| + 2] == CRLF;
    FindIs(text, CRLF, 0, |start|);
  }

  /** A client that takes a printed response apart finds the body behind the header lines. What the
      server sends there is the content and a line end more: two bytes beyond the Content-Length that
      `SetContent` has entered, and nothing for HEAD. */
  lemma ResponseOverrunsContentLength(res: Response, content: string, hs: seq<(string, string)>, sendContent: bool)
    requires Lists(hs, WithContent(res, content).headers) && forall i :: 0 <= i < |hs| ==> LineOk(ColonLine(hs[i]))
    ensures var res' := WithContent(res, content);
            && hs != []
            && Split(PrintResponse(res', hs, sendContent)) ==
               Some((StatusLine(res'), Joined(ColonLines(hs)), if sendContent then content + CRLF else ""))
            && Number(res'.headers[LENGTH]) == |content|
  {
    var res' := WithContent(res, content);
    assert LENGTH in Keys(hs);
    var lines := ColonLines(hs);
    var body := if sendContent then content + CRLF else "";
    DecimalRoundTrip(|content|);
    hide Lists, LineOk, ColonLines, StatusLine, PrintLines, Joined, Decimal, Split, At, Find, Number;
    StatusLineEnd(res', PrintLines(lines) + (CRLF + body));
    SplitMessage(StatusLine(res'), lines, body);
  }

  lemma NoKeys(hs: seq<(string, string)>)
    ensures hs != [] ==> Keys(hs) != {}
  {
    if hs != [] {
      assert hs[0].0 in Keys(hs);
    }
  }

  /** A response to which nothing was added, as the server's own 404 and 405, has no Content-Length; what is
      printed ends with the blank line and, unless it answers HEAD, the content with a line end more. */
  lemma BareResponse(res: Response, hs: seq<(string, string)>, sendContent: bool)
    requires res.headers == map[] && Lists(hs, res.headers)
    ensures var text, n := PrintResponse(res, hs, sendContent), |StatusLine(res)|;
            && hs == [] && Find(text, CRLF, 0) == Some(n) && At(text, BLANK, n)
            && text[n + 4..] == if sendContent then res.content + CRLF else ""
  {
    NoKeys(hs);
    var start, body := StatusLine(res), if sendContent then res.content + CRLF else "";
    hide StatusLine;
    StatusLineEnd(res, PrintLines([]) + (CRLF + body));
    var text := PrintResponse(res, hs, sendContent);
    assert ColonLines(hs) == [] && text == (start + BLANK) + body;
    assert text[|start|..|start| + 4] == BLANK;
  }

  // ----- answering a request -----

  /** What a registered handler does: it replies, or throws a `std::invalid_argument`, another
      `std::logic_error`, or another `std::exception`. */
  datatype Handler = Replies(res: Response) | ThrowsInvalid(what: string) | ThrowsLogic(what: string)
      | Throws(what: string)

  /** The part of a path before a question mark. */
  function Route(path: string): string {
    match Find(path, "?", 0) case None => path case Some(i) => path[..i]
  }

  /** `HandleRequestMessage` with the paths and methods that handlers are registered for. */
  function Dispatch(routes: map<string, set<Method>>, req: Request, handler: Handler): Handler {
    var path := Route(req.path);
    if path !in routes then Replies(NewResponse(404))
    else if req.verb !in routes[path] then Replies(NewResponse(405))
    else handler
  }

  function Failure(status: nat, what: string): Response {
    WithContent(NewResponse(status), what)
  }

  function Caught(h: Handler): Response {
    match h
    case Replies(res) => res
    case ThrowsInvalid(what) => Failure(400, what)
    case ThrowsLogic(what) => Failure(505, what)
    case Throws(what) => Failure(500, what)
  }

  /** The response to a text, whether its content is sent, and whether the connection is kept. */
  function Answer(routes: map<string, set<Method>>, text: string, handler: Handler): (Response, bool, bool) {
    var (req, outcome) := FromString(FRESH, text);
    var res := match outcome
               case Parsed => Caught(Dispatch(routes, req, handler))
               case Invalid(what) => Failure(400, what)
               case Unsupported(what) => Failure(505, what);
    (res, req.verb != HEAD, KeepsAlive(req))
  }

  predicate KeepsAlive(req: Request) {
    "Connection" in req.headers && req.headers["Connection"] == "keep-alive"
  }

  /** A text that cannot be parsed is answered with 400 or 505, and the connection is closed. */
  lemma MalformedCloses(routes: map<string, set<Method>>, text: string, handler: Handler)
    ensures var (res, send, keepAlive) := Answer(routes, text, handler);
            match FromString(FRESH, text).1
            case Parsed => true
            case Invalid(what) => res.status == 400 && res.content == what && !keepAlive
            case Unsupported(what) => res.status == 505 && res.content == what && !keepAlive
  {
    hide Word, MethodFromString, VersionFromString, HeaderLines, Find;
  }

  /** The last line with the key Connection says keep-alive. */
  ghost predicate AsksToStay(hs: seq<(string, string)>) {
    exists i :: 0 <= i < |hs| && Squeeze(hs[i].0) == "Connection" && Squeeze(hs[i].1) == "keep-alive" && LastOfItsKey(hs, i)
  }

  /** A printed request reaches the handler registered for it, and the connection is kept exactly if it
      says so. */
  lemma PrintedIsAnswered(routes: map<string, set<Method>>, m: Method, path: string, v: Version,
                          hs: seq<(string, string)>, body: string, handler: Handler)
    requires path != "" && Clean(path) && v != Http20
    requires hs != [] && forall i :: 0 <= i < |hs| ==> HeaderOk(hs[i])
    ensures var (res, send, keepAlive) := Answer(routes, Print(m, path, v, ColonLines(hs), body), handler);
            && (Route(path) in routes && m in routes[Route(path)] ==> res == Caught(handler))
            && (Route(path) !in routes ==> res.status == 404)
            && (Route(path) in routes && m !in routes[Route(path)] ==> res.status == 405)
            && (send <==> m != HEAD) && (keepAlive <==> AsksToStay(hs))
  {
    var req := FromString(FRESH, Print(m, path, v, ColonLines(hs), body)).0;
    ParsePrinted(m, path, v, hs, body);
    ConnectionLine(hs, req);
    hide FromString, Print, ColonLines, HeaderOk, Clean, Decimal, KeepsAlive, Find, AsksToStay;
  }

  lemma {:induction false} LastConnection(hs: seq<(string, string)>) returns (i: nat)
    requires exists j :: 0 <= j < |hs| && Squeeze(hs[j].0) == "Connection"
    ensures i < |hs| && Squeeze(hs[i].0) == "Connection" && LastOfItsKey(hs, i)
  {
    hide Squeeze;
    i := |hs| - 1;
    if Squeeze(hs[i].0) != "Connection" {
      var init := hs[..i];
      assert forall j :: 0 <= j < i ==> init[j] == hs[j];
      i := LastConnection(init);
    }
  }

  lemma ConnectionLine(hs: seq<(string, string)>, req: Request)
    requires forall k :: k in req.headers <==> k == LENGTH || exists i :: 0 <= i < |hs| && Squeeze(hs[i].0) == k
    requires forall i :: 0 <= i < |hs| && Squeeze(hs[i].0) != LENGTH && LastOfItsKey(hs, i) ==>
               req.headers[Squeeze(hs[i].0)] == Squeeze(hs[i].1)
    ensures KeepsAlive(req) <==> AsksToStay(hs)
  {
    hide Squeeze;
    assert "Connection" != LENGTH;
    if "Connection" in req.headers {
      var i := LastConnection(hs);
      assert req.headers["Connection"] == Squeeze(hs[i].1);
    }
  }
}
