/**
  `LogFormatter` (src/log.cc, src/include/log.hh): the index-based scanner of `Init`, with its nested
  loops and its flag, proved against `LogPatternSpec`.
 */
module LogPatterns {
  import opened Common
  import opened LogPatternSpec

  class LogFormatter {
    const pattern: string
    var items: seq<Formatter>
    /** What the scanner pushes, which a debug build also keeps. */
    var characterParsed: seq<(string, string, int)>

    constructor (pattern: string)
      ensures this.pattern == pattern && characterParsed == Entries(Scan(pattern))
      ensures items == Formatters(Entries(Scan(pattern)))
    {
      this.pattern := pattern;
      items, characterParsed := [], [];
      new;
      Init();
    }

    /** The inner loop: looks at what follows the percent sign at `i`. At the end `flag` is 0 for a
        directive, which ends before `idx`. */
    method ScanDirective(i: nat) returns (character: string, details: string, flag: int, idx: nat)
      requires i < |pattern|
      ensures var (item, n) := AfterPercent(pattern[i + 1..]);
              if flag == 0 then Entry(item) == (character, details, 1) && idx == i + 1 + n else item == Unclosed
    {
      ghost var s := pattern[i + 1..];
      ghost var n := NameLength(s);
      idx, character, details, flag := i + 1, "", "", 0;
      var start := 0;
      while idx < |pattern|
        invariant i + 1 <= idx <= |pattern| && (flag == 0 || flag == 1) && details == ""
        invariant flag == 0 ==> character == "" && idx - (i + 1) <= n && (idx < |pattern| || idx == i + 1)
        invariant flag == 1 ==> n < |s| && s[n] == '{' && start == i + 1 + n < idx && character == s[..n]
        invariant flag == 1 ==> forall k :: n < k < idx - (i + 1) ==> s[k] != '}'
      {
        assert pattern[idx] == s[idx - (i + 1)];
        if flag == 0 && !IsAlpha(pattern[idx]) && pattern[idx] != '{' && pattern[idx] != '}' {
          character := pattern[i + 1..idx];
          assert character == s[..n];
          break;
        }
        if flag == 0 && pattern[idx] == '{' {
          character := pattern[i + 1..idx];
          assert character == s[..n];
          start := idx;
          flag := 1;
          idx := idx + 1;
          continue;
        } else if flag != 0 && pattern[idx] == '}' {
          flag := 0;
          details := pattern[start + 1..idx];
          assert details == s[n + 1..idx - (i + 1)] && Close(s, n + 1) == Some(idx - (i + 1));
          idx := idx + 1;
          break;
        }
        idx := idx + 1;
        if idx == |pattern| {
          character := pattern[i + 1..idx];
          assert character == s;
          assert flag == 0 ==> n == |s| && s[..n] == s;
          break;
        }
      }
    }

    /** One round of the outer loop at a percent sign that is not doubled: what is pushed, and where the
        next round starts. */
    method PushDirective(i: nat, nstr: string)
        returns (pushed: seq<(string, string, int)>, next: nat, ghost more: seq<Item>)
      requires i < |pattern| && pattern[i] == '%' && !(i + 1 < |pattern| && pattern[i + 1] == '%')
      ensures i < next <= |pattern| && pushed == Entries(more)
      ensures ScanFrom(pattern[i..], nstr) == more + ScanFrom(pattern[next..], "")
    {
      var character, details, flag, idx := ScanDirective(i);
      AtPercent(pattern[i..], nstr);
      assert pattern[i..][1..] == pattern[i + 1..];
      ghost var item := AfterPercent(pattern[i + 1..]).0;
      hide AfterPercent, ScanFrom;
      pushed := if nstr != "" then [(nstr, "", 0)] else [];
      if flag == 0 {
        pushed := pushed + [(character, details, 1)];
        next := idx;
      } else {
        pushed := pushed + [("<<parse-error>>", "", 0)];
        next := i + 1;
      }
      more := Flush(nstr) + [item];
    }

    method Init()
      modifies this
      ensures characterParsed == Entries(Scan(pattern)) && items == Formatters(characterParsed)
    {
      var vec: seq<(string, string, int)> := [];
      var nstr := "";
      ghost var done: seq<Item> := [];
      var i: nat := 0;
      assert pattern[0..] == pattern;
      while i < |pattern|
        invariant i <= |pattern| && vec == Entries(done)
        invariant done + ScanFrom(pattern[i..], nstr) == Scan(pattern)
        decreases |pattern| - i
      {
        if pattern[i] != '%' {
          nstr := nstr + [pattern[i]];
          i := i + 1;
        } else if i + 1 < |pattern| && pattern[i + 1] == '%' {
          nstr := nstr + "%";
          i := i + 2;
        } else {
          var pushed, next;
          ghost var more;
          pushed, next, more := PushDirective(i, nstr);
          vec := vec + pushed;
          done := done + more;
          nstr := "";
          i := next;
        }
      }
      characterParsed := vec;
      MakeItems();
    }

    /** The loop over what was scanned, with the table of directives. */
    method MakeItems()
      modifies this`items
      ensures items == Formatters(characterParsed)
    {
      items := [];
      for k := 0 to |characterParsed|
        invariant items == Formatters(characterParsed[..k])
      {
        var (str, details, flag) := characterParsed[k];
        if flag == 1 {
          var ptr := Lookup(str, details);
          if ptr != None {
            items := items + [ptr.value];
          } else {
            items := items + [Str("<<parse-error>>")];
          }
        } else {
          items := items + [Str(str)];
        }
        assert characterParsed[..k + 1] == characterParsed[..k] + [characterParsed[k]];
      }
      assert characterParsed[..|characterParsed|] == characterParsed;
    }
  }
}
