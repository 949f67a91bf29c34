/**
  The pattern language of `LogFormatter` (`LogFormatter::Init` in src/log.cc): what the scanner makes of
  a pattern, and a printer that it is inverse to.
 */
module LogPatternSpec {
  import opened Common

  /** What the scanner finds: literal text, a directive with its name and the text in its braces if it
      has any, or a percent sign whose brace is never closed. */
  datatype Item = Literal(text: string) | Directive(name: string, braces: Option<string>) | Unclosed

  predicate IsAlpha(c: char) {
    'a' <= c <= 'z' || 'A' <= c <= 'Z'
  }

  /** A closing brace outside braces does not end a name. */
  predicate IsNameChar(c: char) {
    IsAlpha(c) || c == '}'
  }

  function NameLength(s: string): (n: nat)
    ensures n <= |s| && (n < |s| ==> !IsNameChar(s[n])) && forall i :: 0 <= i < n ==> IsNameChar(s[i])
  {
    if s == "" || !IsNameChar(s[0]) then 0 else 1 + NameLength(s[1..])
  }

  /** The first closing brace from `from` on. */
  function Close(s: string, from: nat): (r: Option<nat>)
    requires from <= |s|
    ensures r.Some? ==> from <= r.value < |s| && s[r.value] == '}' && forall k :: from <= k < r.value ==> s[k] != '}'
    ensures r == None ==> forall k :: from <= k < |s| ==> s[k] != '}'
    decreases |s| - from
  {
    if from == |s| then None else if s[from] == '}' then Some(from) else Close(s, from + 1)
  }

  /** What follows a percent sign, and how many characters of it are used. An unclosed brace uses none. */
  function AfterPercent(s: string): (r: (Item, nat))
    ensures r.1 <= |s|
  {
    var n := NameLength(s);
    if n == |s| || s[n] != '{' then (Directive(s[..n], None), n)
    else match Close(s, n + 1)
         case None => (Unclosed, 0)
         case Some(j) => (Directive(s[..n], Some(s[n + 1..j])), j + 1)
  }

  function Flush(lit: string): seq<Item> {
    if lit == "" then [] else [Literal(lit)]
  }

  /** The items of a text, `lit` being the literal text just before it. Literal text at the end of the
      pattern is never pushed. */
  function ScanFrom(s: string, lit: string): seq<Item>
    decreases |s|
  {
    if s == "" then []
    else if s[0] != '%' then ScanFrom(s[1..], lit + [s[0]])
    else if |s| > 1 && s[1] == '%' then ScanFrom(s[2..], lit + "%")
    else
      var (item, n) := AfterPercent(s[1..]);
      Flush(lit) + ([item] + ScanFrom(s[1 + n..], ""))
  }

  function Scan(pattern: string): seq<Item> {
    ScanFrom(pattern, "")
  }

  /** The literal text that is dropped at the end. */
  function DroppedFrom(s: string, lit: string): string
    decreases |s|
  {
    if s == "" then lit
    else if s[0] != '%' then DroppedFrom(s[1..], lit + [s[0]])
    else if |s| > 1 && s[1] == '%' then DroppedFrom(s[2..], lit + "%")
    else DroppedFrom(s[1 + AfterPercent(s[1..]).1..], "")
  }

  // ----- printing -----

  /** Percent signs are doubled. */
  function Escape(s: string): string {
    if s == "" then "" else (if s[0] == '%' then "%%" else [s[0]]) + Escape(s[1..])
  }

  function PrintItem(item: Item): string {
    match item
    case Literal(text) => Escape(text)
    case Directive(name, None) => "%" + name
    case Directive(name, Some(text)) => "%" + (name + ("{" + (text + "}")))
    case Unclosed => "%"
  }

  function Print(items: seq<Item>): string {
    if items == [] then "" else PrintItem(items[0]) + Print(items[1..])
  }

  lemma {:induction false} EscapeConcat(a: string, b: string)
    ensures Escape(a + b) == Escape(a) + Escape(b)
  {
    if a == "" {
      assert a + b == b;
    } else {
      EscapeConcat(a[1..], b);
      assert (a + b)[1..] == a[1..] + b && (a + b)[0] == a[0];
      var head := if a[0] == '%' then "%%" else [a[0]];
      assert (head + Escape(a[1..])) + Escape(b) == head + (Escape(a[1..]) + Escape(b));
    }
  }

  lemma {:induction false} PrintConcat(a: seq<Item>, b: seq<Item>)
    ensures Print(a + b) == Print(a) + Print(b)
  {
    hide PrintItem;
    if a == [] {
      assert a + b == b && Print([]) + Print(b) == Print(b);
    } else {
      PrintConcat(a[1..], b);
      assert (a + b)[1..] == a[1..] + b && (a + b)[0] == a[0];
      assert (PrintItem(a[0]) + Print(a[1..])) + Print(b) == PrintItem(a[0]) + (Print(a[1..]) + Print(b));
    }
  }

  // ----- nothing but the end is lost -----

  lemma PrintAfterPercent(s: string)
    ensures var (item, n) := AfterPercent(s); PrintItem(item) == "%" + s[..n]
  {
    var n := NameLength(s);
    if n < |s| && s[n] == '{' {
      match Close(s, n + 1)
      case None => assert s[..0] == "";
      case Some(j) =>
        assert s[..j + 1] == s[..n] + ("{" + (s[n + 1..j] + "}"));
    }
  }

  lemma PrintFlush(lit: string, items: seq<Item>)
    ensures Print(Flush(lit) + items) == Escape(lit) + Print(items)
  {
    PrintConcat(Flush(lit), items);
    if lit != "" {
      assert Print([]) == "" && Print([Literal(lit)]) == Escape(lit) + "";
    }
  }

  lemma EscapeOne(lit: string, c: char, rest: string)
    ensures Escape(lit + [c]) + rest == Escape(lit) + ((if c == '%' then "%%" else [c]) + rest)
  {
    EscapeConcat(lit, [c]);
    assert [c][1..] == "" && Escape("") == "";
    assert Escape([c]) == if c == '%' then "%%" else [c];
    hide Escape;
  }

  /** The step at a directive: `printed` and `dropped` are what becomes of `rest`. */
  lemma GroupDirective(lit: string, item: string, rest: string, printed: string, dropped: string)
    requires "" + rest == printed + dropped
    ensures lit + (item + rest) == (lit + (item + printed)) + dropped
  {
    assert rest == printed + dropped;
  }

  /** The step of the scanner at a percent sign. */
  lemma AtPercent(s: string, lit: string)
    requires s != "" && s[0] == '%' && !(|s| > 1 && s[1] == '%')
    ensures var (item, n) := AfterPercent(s[1..]);
            && ScanFrom(s, lit) == Flush(lit) + ([item] + ScanFrom(s[1 + n..], ""))
            && DroppedFrom(s, lit) == DroppedFrom(s[1 + n..], "")
  {
    hide AfterPercent, Flush;
  }

  lemma CutAtPercent(s: string)
    requires s != "" && s[0] == '%'
    ensures var (item, n) := AfterPercent(s[1..]); s == PrintItem(item) + s[1 + n..]
  {
    var n := AfterPercent(s[1..]).1;
    PrintAfterPercent(s[1..]);
    hide AfterPercent, PrintItem;
    assert s == ("%" + s[1..][..n]) + s[1 + n..];
  }

  lemma DirectiveStep(s: string, lit: string)
    requires s != "" && s[0] == '%' && !(|s| > 1 && s[1] == '%')
    requires var rest := s[1 + AfterPercent(s[1..]).1..];
             Escape("") + rest == Print(ScanFrom(rest, "")) + Escape(DroppedFrom(rest, ""))
    ensures Escape(lit) + s == Print(ScanFrom(s, lit)) + Escape(DroppedFrom(s, lit))
  {
    var (item, n) := AfterPercent(s[1..]);
    var rest := s[1 + n..];
    var items := ScanFrom(rest, "");
    assert Escape("") == "";
    hide AfterPercent, PrintItem, Escape, ScanFrom, DroppedFrom;
    AtPercent(s, lit);
    CutAtPercent(s);
    PrintFlush(lit, [item] + items);
    assert ([item] + items)[1..] == items;
    GroupDirective(Escape(lit), PrintItem(item), rest, Print(items), Escape(DroppedFrom(rest, "")));
  }

  lemma {:induction false} ScanFromLossless(s: string, lit: string)
    ensures Escape(lit) + s == Print(ScanFrom(s, lit)) + Escape(DroppedFrom(s, lit))
    decreases |s|
  {
    if s == "" {
      assert Escape(lit) + "" == Escape(lit) && "" + Escape(lit) == Escape(lit);
    } else if s[0] != '%' {
      ScanFromLossless(s[1..], lit + [s[0]]);
      EscapeOne(lit, s[0], s[1..]);
      assert [s[0]] + s[1..] == s;
      hide Escape, Print;
    } else if |s| > 1 && s[1] == '%' {
      ScanFromLossless(s[2..], lit + "%");
      EscapeOne(lit, '%', s[2..]);
      assert "%%" + s[2..] == s;
      hide Escape, Print;
    } else {
      ScanFromLossless(s[1 + AfterPercent(s[1..]).1..], "");
      DirectiveStep(s, lit);
    }
  }

  /** Every pattern is the print of what the scanner finds in it, but for literal text at its end: the
      scanner loses nothing else, and invents nothing. */
  lemma ScanLossless(pattern: string)
    ensures Print(Scan(pattern)) + Escape(DroppedFrom(pattern, "")) == pattern
  {
    ScanFromLossless(pattern, "");
    assert Escape("") + pattern == pattern;
  }

  // ----- scanning undoes printing -----

  predicate IsName(s: string) {
    forall i :: 0 <= i < |s| ==> IsNameChar(s[i])
  }

  predicate ItemOk(item: Item) {
    match item
    case Literal(text) => text != ""
    case Directive(name, braces) => IsName(name) && (braces.Some? ==> '}' !in braces.value)
    case Unclosed => false
  }

  /** Literal texts are not adjacent; none that starts with a letter or a brace follows a directive
      without braces; and a percent sign on its own stands only before other literal text. */
  predicate MayFollow(item: Item, next: Item) {
    && (next.Literal? ==> next.text != "" && !item.Literal?)
    && (next.Literal? && item.Directive? && item.braces == None ==> !IsNameChar(next.text[0]) && next.text[0] != '{')
    && (item == Directive("", None) ==> next.Literal? && next.text[0] != '%')
  }

  predicate Canonical(items: seq<Item>) {
    && (forall i :: 0 <= i < |items| ==> ItemOk(items[i]))
    && (forall i :: 0 < i < |items| ==> MayFollow(items[i - 1], items[i]))
  }

  /** What a printed text may start with behind a directive without braces. */
  predicate EndsName(rest: string) {
    rest != "" ==> !IsNameChar(rest[0]) && rest[0] != '{'
  }

  lemma {:induction false} NameLengthOf(name: string, rest: string)
    requires IsName(name) && (rest != "" ==> !IsNameChar(rest[0]))
    ensures NameLength(name + rest) == |name|
  {
    if name == "" {
      assert name + rest == rest;
    } else {
      NameLengthOf(name[1..], rest);
      assert (name + rest)[1..] == name[1..] + rest;
    }
  }

  lemma PlainDirective(name: string, rest: string)
    requires IsName(name) && EndsName(rest)
    ensures AfterPercent(name + rest) == (Directive(name, None), |name|)
  {
    NameLengthOf(name, rest);
    assert (name + rest)[..|name|] == name;
    assert rest != "" ==> (name + rest)[|name|] == rest[0];
  }

  lemma BracedText(name: string, text: string, rest: string)
    ensures var s := (name + ("{" + (text + "}"))) + rest;
            var n := |name|;
            var j := n + 1 + |text|;
            && s == name + ("{" + (text + ("}" + rest)))
            && j < |s| && s[n] == '{' && s[j] == '}' && s[..n] == name && s[n + 1..j] == text
            && forall k :: n + 1 <= k < j ==> s[k] == text[k - n - 1]
  {
  }

  lemma BracedDirective(name: string, text: string, rest: string)
    requires IsName(name) && '}' !in text
    ensures AfterPercent((name + ("{" + (text + "}"))) + rest) == (Directive(name, Some(text)), |name| + |text| + 2)
  {
    BracedText(name, text, rest);
    NameLengthOf(name, "{" + (text + ("}" + rest)));
    hide NameLength, Close, IsName;
  }

  lemma ScanChar(c: char, more: string, lit: string)
    ensures ScanFrom((if c == '%' then "%%" else [c]) + more, lit) == ScanFrom(more, lit + [c])
  {
    var s := (if c == '%' then "%%" else [c]) + more;
    assert c == '%' ==> s[1] == '%' && s[2..] == more;
    assert c != '%' ==> s[1..] == more;
    hide AfterPercent;
  }

  lemma {:induction false} ScanLiteral(text: string, rest: string, lit: string)
    ensures ScanFrom(Escape(text) + rest, lit) == ScanFrom(rest, lit + text)
    decreases |text|
  {
    if text == "" {
      assert Escape(text) + rest == rest && lit + text == lit;
    } else {
      var head, tail := if text[0] == '%' then "%%" else [text[0]], Escape(text[1..]);
      assert Escape(text) == head + tail;
      hide Escape, ScanFrom;
      ScanChar(text[0], tail + rest, lit);
      ScanLiteral(text[1..], rest, lit + [text[0]]);
      assert (head + tail) + rest == head + (tail + rest);
      assert (lit + [text[0]]) + text[1..] == lit + text;
    }
  }

  lemma PercentText(inner: string, rest: string)
    ensures var s := ("%" + inner) + rest;
            s[0] == '%' && s[1..] == inner + rest && s[1 + |inner|..] == rest && (|s| > 1 ==> s[1] == (inner + rest)[0])
  {
    assert (("%" + inner) + rest)[1..] == inner + rest;
  }

  lemma ScanPercent(item: Item, inner: string, rest: string, lit: string)
    requires AfterPercent(inner + rest) == (item, |inner|) && (inner + rest != "" ==> (inner + rest)[0] != '%')
    ensures ScanFrom(("%" + inner) + rest, lit) == Flush(lit) + ([item] + ScanFrom(rest, ""))
  {
    PercentText(inner, rest);
    hide AfterPercent, Flush, ScanFrom;
    AtPercent(("%" + inner) + rest, lit);
  }

  lemma ScanDirective(item: Item, rest: string, lit: string)
    requires item.Directive? && ItemOk(item) && (item.braces == None ==> EndsName(rest))
    requires item == Directive("", None) && rest != "" ==> rest[0] != '%'
    ensures ScanFrom(PrintItem(item) + rest, lit) == Flush(lit) + ([item] + ScanFrom(rest, ""))
  {
    var name := item.name;
    match item.braces
    case None =>
      PlainDirective(name, rest);
      assert name + rest != "" ==> (name + rest)[0] == if name == "" then rest[0] else name[0];
      ScanPercent(item, name, rest, lit);
    case Some(text) =>
      BracedDirective(name, text, rest);
      var inner := name + ("{" + (text + "}"));
      assert (inner + rest)[0] == inner[0] == if name == "" then '{' else name[0];
      ScanPercent(item, inner, rest, lit);
  }

  function Kept(items: seq<Item>): seq<Item> {
    if items != [] && items[|items| - 1].Literal? then items[..|items| - 1] else items
  }

  /** The text of a canonical list that may follow `item`. */
  lemma StartOf(item: Item, items: seq<Item>)
    requires Canonical(items) && (items != [] ==> MayFollow(item, items[0])) && item.Directive? && item.braces == None
    ensures EndsName(Print(items)) && (item.name == "" && Print(items) != "" ==> Print(items)[0] != '%')
  {
    if items != [] {
      var text := PrintItem(items[0]);
      assert text != "" && (text[0] == '%' || (items[0].Literal? && text[0] == items[0].text[0]));
    }
  }

  lemma CanonicalTail(items: seq<Item>)
    requires items != [] && Canonical(items)
    ensures Canonical(items[1..]) && ItemOk(items[0]) && (|items| > 1 ==> MayFollow(items[0], items[1]))
  {
    var rest := items[1..];
    forall i | 0 < i < |rest| ensures MayFollow(rest[i - 1], rest[i]) {
      assert MayFollow(items[i], items[i + 1]);
    }
    if |items| > 1 {
      assert MayFollow(items[1 - 1], items[1]);
    }
  }

  lemma KeptTail(items: seq<Item>)
    requires items != []
    ensures Kept(items) == if |items| == 1 && items[0].Literal? then [] else [items[0]] + Kept(items[1..])
  {
    var n := |items|;
    if n > 1 && items[n - 1].Literal? {
      assert items[..n - 1] == [items[0]] + items[1..][..n - 2];
    } else {
      assert items == [items[0]] + items[1..];
    }
  }

  lemma {:induction false} ScanPrintedFrom(items: seq<Item>)
    requires Canonical(items)
    ensures ScanFrom(Print(items), "") == Kept(items)
    decreases |items|
  {
    if items != [] {
      CanonicalTail(items);
      KeptTail(items);
      var item, rest := items[0], items[1..];
      if item.Literal? {
        ScanLiteral(item.text, Print(rest), "");
        assert "" + item.text == item.text;
        if rest == [] {
          assert ScanFrom("", item.text) == [];
        } else {
          CanonicalTail(rest);
          KeptTail(rest);
          assert rest[0].Directive?;
          NextDirective(rest, item.text);
          ScanPrintedFrom(rest[1..]);
        }
      } else {
        NextDirective(items, "");
        ScanPrintedFrom(rest);
      }
    }
  }

  lemma NextDirective(items: seq<Item>, lit: string)
    requires items != [] && Canonical(items) && items[0].Directive?
    ensures ScanFrom(Print(items), lit) == Flush(lit) + ([items[0]] + ScanFrom(Print(items[1..]), ""))
  {
    CanonicalTail(items);
    if items[0].braces == None {
      StartOf(items[0], items[1..]);
    }
    ScanDirective(items[0], Print(items[1..]), lit);
  }

  /** Scanning the print of a canonical list gives the list back, but for literal text at its end. So
      the list comes back exactly if it does not end in literal text. */
  lemma ScanPrinted(items: seq<Item>)
    requires Canonical(items)
    ensures Scan(Print(items)) == Kept(items)
    ensures Scan(Print(items)) == items <==> items == [] || items[|items| - 1].Directive?
  {
    ScanPrintedFrom(items);
    if items != [] {
      assert ItemOk(items[|items| - 1]);
    }
  }

  // ----- what scanning gives is canonical -----

  /** The first item: the literal text at hand, or what the next character says. */
  lemma {:induction false} FirstItem(s: string, lit: string)
    requires ScanFrom(s, lit) != []
    ensures var item := ScanFrom(s, lit)[0];
            && (lit != "" ==> item.Literal? && lit <= item.text)
            && (lit == "" ==> s != "" && if item.Literal? then item.text != "" && item.text[0] == s[0] else s[0] == '%')
    decreases |s|
  {
    if s[0] != '%' {
      FirstItem(s[1..], lit + [s[0]]);
    } else if |s| > 1 && s[1] == '%' {
      FirstItem(s[2..], lit + "%");
    } else {
      AtPercent(s, lit);
      hide AfterPercent, ScanFrom;
    }
  }

  lemma ConsCanonical(item: Item, items: seq<Item>)
    requires ItemOk(item) && Canonical(items) && (items != [] ==> MayFollow(item, items[0]))
    ensures Canonical([item] + items)
  {
    var all := [item] + items;
    forall i | 0 < i < |all| ensures MayFollow(all[i - 1], all[i]) {
      if i > 1 { assert MayFollow(items[i - 2], items[i - 1]); }
    }
  }

  lemma DirectiveFollowed(s: string)
    requires s == "" || s[0] != '%'
    ensures var (item, n) := AfterPercent(s);
            item.Directive? ==> ItemOk(item) && var items := ScanFrom(s[n..], ""); items != [] ==>
                MayFollow(item, items[0])
  {
    var (item, n) := AfterPercent(s);
    if item.Directive? && ScanFrom(s[n..], "") != [] {
      FirstItem(s[n..], "");
    }
  }

  /** If every brace is closed, the scanner's list is canonical: with `ScanPrinted` and `ScanLossless`,
      such patterns without literal text at their end are the same thing as canonical lists that end in
      a directive. */
  lemma {:induction false} ScanIsCanonical(s: string, lit: string)
    requires Unclosed !in ScanFrom(s, lit)
    ensures Canonical(ScanFrom(s, lit))
    decreases |s|
  {
    if s == "" {
    } else if s[0] != '%' {
      ScanIsCanonical(s[1..], lit + [s[0]]);
    } else if |s| > 1 && s[1] == '%' {
      ScanIsCanonical(s[2..], lit + "%");
    } else {
      AtPercent(s, lit);
      var (item, n) := AfterPercent(s[1..]);
      var rest := s[1 + n..];
      assert s[1..][n..] == rest;
      assert ScanFrom(s, lit)[|Flush(lit)|] == item && ScanFrom(s, lit)[|Flush(lit)| + 1..] == ScanFrom(rest, "");
      DirectiveFollowed(s[1..]);
      ScanIsCanonical(rest, "");
      hide AfterPercent, ScanFrom;
      ConsCanonical(item, ScanFrom(rest, ""));
      if lit != "" {
        ConsCanonical(Literal(lit), [item] + ScanFrom(rest, ""));
      } else {
        assert [] + ([item] + ScanFrom(rest, "")) == [item] + ScanFrom(rest, "");
      }
    }
  }

  /** A list without unclosed braces comes back from its print if and only if it is canonical and does not end
      in literal text. */
  lemma ScanPrintedExactly(items: seq<Item>)
    requires Unclosed !in items
    ensures Scan(Print(items)) == items <==> Canonical(items) && (items == [] || items[|items| - 1].Directive?)
  {
    if Scan(Print(items)) == items {
      ScanIsCanonical(Print(items), "");
    }
    if Canonical(items) {
      ScanPrinted(items);
    }
  }

  // ----- the formatter items -----

  /** The classes of formatter items; a timestamp has a time format, a string its text. */
  datatype Formatter =
    | Message | Level | Timestamp(format: string) | Tab | ThreadId | CoroutineId | LoggerName | Filename | Line
    | Breaks | Elapse | Str(text: string)

  const PARSE_ERROR: string := "<<parse-error>>"

  /** An item as the scanner stores it: text, details, and whether it is a directive. */
  function Entry(item: Item): (string, string, int) {
    match item
    case Literal(text) => (text, "", 0)
    case Directive(name, None) => (name, "", 1)
    case Directive(name, Some(text)) => (name, text, 1)
    case Unclosed => (PARSE_ERROR, "", 0)
  }

  /** The table of directives. */
  function Lookup(name: string, details: string): Option<Formatter> {
    if name == "m" then Some(Message)
    else if name == "p" then Some(Level)
    else if name == "d" then Some(Timestamp(details))
    else if name == "T" then Some(Tab)
    else if name == "t" then Some(ThreadId)
    else if name == "F" then Some(CoroutineId)
    else if name == "c" then Some(LoggerName)
    else if name == "f" then Some(Filename)
    else if name == "l" then Some(Line)
    else if name == "n" then Some(Breaks)
    else if name == "u" then Some(Elapse)
    else None
  }

  function FormatterOf(e: (string, string, int)): Formatter {
    if e.2 == 1 then
      (match Lookup(e.0, e.1) case Some(f) => f case None => Str(PARSE_ERROR))
    else Str(e.0)
  }

  function Entries(items: seq<Item>): (r: seq<(string, string, int)>)
    ensures |r| == |items| && forall i :: 0 <= i < |items| ==> r[i] == Entry(items[i])
  {
    seq(|items|, i requires 0 <= i < |items| => Entry(items[i]))
  }

  function Formatters(es: seq<(string, string, int)>): (r: seq<Formatter>)
    ensures |r| == |es| && forall i :: 0 <= i < |es| ==> r[i] == FormatterOf(es[i])
  {
    seq(|es|, i requires 0 <= i < |es| => FormatterOf(es[i]))
  }

  /** The formatter items of a printed canonical list that ends in a directive: one for each item, in
      order; a directive outside the table becomes the text of a parse error. */
  lemma FormattersOfPrinted(items: seq<Item>)
    requires Canonical(items) && items != [] && items[|items| - 1].Directive?
    ensures var fs := Formatters(Entries(Scan(Print(items))));
            && |fs| == |items|
            && forall i :: 0 <= i < |items| ==>
                 match items[i]
                 case Literal(text) => fs[i] == Str(text)
                 case Directive(name, braces) =>
                   var known := Lookup(name, if braces.Some? then braces.value else "");
                   fs[i] == (if known.Some? then known.value else Str(PARSE_ERROR))
                 case Unclosed => false
  {
    ScanPrinted(items);
    forall i | 0 <= i < |items| ensures !items[i].Unclosed? {
      assert ItemOk(items[i]);
    }
  }

  // ----- the letters -----

  /** What the letters show, but for `d`, which shows the time in the format of its braces. */
  const LETTERS: map<string, Formatter> := map[
    "m" := Message, "p" := Level, "T" := Tab, "t" := ThreadId, "F" := CoroutineId, "c" := LoggerName, "f" := Filename,
    "l" := Line, "n" := Breaks, "u" := Elapse]

  /** A pattern of one directive, with or without braces: it shows what its letters stand for, and any other name,
      also a longer one that begins with such a letter, shows the text of a parse error. */
  lemma OneDirective(name: string, braces: Option<string>)
    requires name != "" && (forall i :: 0 <= i < |name| ==> Joins(name[i])) && (braces.Some? ==> '}' !in braces.value)
    ensures var pattern := "%" + (name + if braces.Some? then "{" + (braces.value + "}") else "");
            Formatters(Entries(Scan(pattern))) ==
            [if name == "d" then Timestamp(if braces.Some? then braces.value else "")
             else if name in LETTERS then LETTERS[name]
             else Str("<<parse-error>>")]
  {
    var items := [Directive(name, braces)];
    assert name + "" == name;
    assert items[1..] == [] && Print(items) == PrintItem(items[0]) + "" == PrintItem(items[0]);
    ScanPrinted(items);
    LetterOf(name, if braces.Some? then braces.value else "");
    hide Scan, Print, Lookup;
  }

  /** The characters of names. */
  predicate Joins(c: char) {
    'a' <= c <= 'z' || 'A' <= c <= 'Z' || c == '}'
  }

  lemma PrintCons(item: Item, rest: seq<Item>)
    ensures Print([item] + rest) == PrintItem(item) + Print(rest)
  {
    hide PrintItem;
    assert ([item] + rest)[1..] == rest;
  }

  /** A name goes as far as there are letters or closing braces; a doubled percent sign is one in the text. */
  lemma NameEnds(name: string, c: char)
    requires name != "" && (forall i :: 0 <= i < |name| ==> Joins(name[i])) && !Joins(c) && c != '{'
    ensures Scan(("%" + name) + ((if c == '%' then "%%" else [c]) + "%n")) ==
            [Directive(name, None), Literal([c]), Directive("n", None)]
  {
    var a, b, n := Directive(name, None), Literal([c]), Directive("n", None);
    var items := [a] + ([b] + [n]);
    assert Escape([c]) == (if c == '%' then "%%" else [c]) + Escape("") == if c == '%' then "%%" else [c];
    assert [n] + [] == [n] && "%n" + "" == "%n" && PrintItem(n) == "%n" && Print([]) == "";
    PrintCons(n, []);
    PrintCons(b, [n]);
    PrintCons(a, [b] + [n]);
    assert items == [a, b, n];
    assert Canonical(items);
    ScanPrinted(items);
  }

  lemma LetterOf(name: string, details: string)
    ensures Lookup(name, details) ==
            if name == "d" then Some(Timestamp(details)) else if name in LETTERS then Some(LETTERS[name]) else None
  {
  }
}
