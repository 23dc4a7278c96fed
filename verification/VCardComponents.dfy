/** Structured vCard values: components are escaped by two replacement passes and joined with ";",
    and read back by a one-pass scanner. */
module VCardComponents {
  import opened Prelude

  /** strings.ReplaceAll for a one-byte pattern. */
  function ReplaceAll(s: string, c: char, repl: string): string {
    if s == "" then "" else (if s[0] == c then repl else [s[0]]) + ReplaceAll(s[1..], c, repl)
  }

  lemma {:induction false} ReplaceAllConcat(s: string, t: string, c: char, repl: string)
    ensures ReplaceAll(s + t, c, repl) == ReplaceAll(s, c, repl) + ReplaceAll(t, c, repl)
  {
    if s == "" {
      assert s + t == t;
    } else {
      assert (s + t)[1..] == s[1..] + t;
      ReplaceAllConcat(s[1..], t, c, repl);
    }
  }

  /** Backslashes first, then semicolons. */
  function EscapeComponent(s: string): string {
    ReplaceAll(ReplaceAll(s, '\\', "\\\\"), ';', "\\;")
  }

  function Escaped(c: char): string {
    if c == '\\' then "\\\\" else if c == ';' then "\\;" else [c]
  }

  lemma EscapeHead(s: string)
    requires s != ""
    ensures EscapeComponent(s) == Escaped(s[0]) + EscapeComponent(s[1..])
  {
    var first := if s[0] == '\\' then "\\\\" else [s[0]];
    ReplaceAllConcat(first, ReplaceAll(s[1..], '\\', "\\\\"), ';', "\\;");
    if s[0] == '\\' {
      assert ReplaceAll("\\\\", ';', "\\;") == "\\\\" by {
        assert "\\\\"[1..] == "\\" && "\\"[1..] == "";
        assert ReplaceAll("\\", ';', "\\;") == "\\";
      }
    } else {
      assert [s[0]][1..] == "";
    }
  }

  function EscapeOnePass(s: string): string {
    if s == "" then "" else Escaped(s[0]) + EscapeOnePass(s[1..])
  }

  /** The two passes together escape one byte at a time. */
  lemma {:induction false} TwoPassesAreOne(s: string)
    ensures EscapeComponent(s) == EscapeOnePass(s)
  {
    if s != "" {
      EscapeHead(s);
      TwoPassesAreOne(s[1..]);
    }
  }

  /** What the scanner makes of s when cur has been collected. */
  function Scan(s: string, cur: string): (r: seq<string>)
    ensures r != []
    decreases |s|
  {
    if s == "" then [cur]
    else if s[0] == '\\' && |s| > 1 then Scan(s[2..], cur + [s[1]])
    else if s[0] == ';' then [cur] + Scan(s[1..], "")
    else Scan(s[1..], cur + [s[0]])
  }

  method SplitComponents(s: string) returns (parts: seq<string>)
    ensures parts == Scan(s, "")
  {
    parts := [];
    var cur, i := "", 0;
    while i < |s|
      invariant 0 <= i <= |s|
      invariant parts + Scan(s[i..], cur) == Scan(s, "")
    {
      ghost var rest := s[i..];
      assert rest[1..] == s[i + 1..];
      if s[i] == '\\' && i + 1 < |s| {
        assert rest[2..] == s[i + 2..];
        cur := cur + [s[i + 1]];
        i := i + 2;
        continue;
      }
      if s[i] == ';' {
        assert parts + ([cur] + Scan(s[i + 1..], "")) == parts + [cur] + Scan(s[i + 1..], "");
        parts := parts + [cur];
        cur := "";
      } else {
        cur := cur + [s[i]];
      }
      i := i + 1;
    }
    parts := parts + [cur];
  }

  lemma ScanUnit(c: char, tail: string, cur: string)
    ensures Scan(Escaped(c) + tail, cur) == Scan(tail, cur + [c])
  {
    var all := Escaped(c) + tail;
    assert all[|Escaped(c)|..] == tail;
  }

  lemma {:induction false} ScanEscapedOnePass(s: string, rest: string, cur: string)
    ensures Scan(EscapeOnePass(s) + rest, cur) == Scan(rest, cur + s)
    decreases |s|
  {
    if s == "" {
      assert EscapeOnePass(s) + rest == rest && cur + s == cur;
    } else {
      var tail := EscapeOnePass(s[1..]) + rest;
      assert EscapeOnePass(s) + rest == Escaped(s[0]) + tail;
      ScanUnit(s[0], tail, cur);
      ScanEscapedOnePass(s[1..], rest, cur + [s[0]]);
      assert cur + [s[0]] + s[1..] == cur + s;
    }
  }

  /** The scanner undoes the escaping of what it reads, whatever follows. */
  lemma ScanEscaped(s: string, rest: string, cur: string)
    ensures Scan(EscapeComponent(s) + rest, cur) == Scan(rest, cur + s)
  {
    TwoPassesAreOne(s);
    ScanEscapedOnePass(s, rest, cur);
  }

  function EscapeAll(comps: seq<string>): seq<string> {
    seq(|comps|, i requires 0 <= i < |comps| => EscapeComponent(comps[i]))
  }

  lemma {:induction false} ScanJoined(comps: seq<string>, cur: string)
    requires comps != []
    ensures Scan(Join(EscapeAll(comps), ";"), cur) == [cur + comps[0]] + comps[1..]
    decreases |comps|
  {
    if |comps| == 1 {
      ScanEscaped(comps[0], "", cur);
      assert EscapeComponent(comps[0]) + "" == EscapeComponent(comps[0]);
    } else {
      assert EscapeAll(comps)[1..] == EscapeAll(comps[1..]);
      var rest := ";" + Join(EscapeAll(comps[1..]), ";");
      assert Join(EscapeAll(comps), ";") == EscapeComponent(comps[0]) + rest;
      ScanEscaped(comps[0], rest, cur);
      assert rest[1..] == Join(EscapeAll(comps[1..]), ";");
      ScanJoined(comps[1..], "");
      assert "" + comps[1] == comps[1] && comps[1..] == [comps[1]] + comps[2..] && comps[1..][1..] == comps[2..];
    }
  }

  /** Splitting the join of the escaped components gives the components back, for every non-empty list. */
  lemma SplitUndoesJoin(comps: seq<string>)
    requires comps != []
    ensures Scan(Join(EscapeAll(comps), ";"), "") == comps
  {
    ScanJoined(comps, "");
    assert "" + comps[0] == comps[0] && [comps[0]] + comps[1..] == comps;
  }

  /** Hence no two different component lists share a structured value. */
  lemma StructuredValueIsFaithful(a: seq<string>, b: seq<string>)
    requires a != [] && b != [] && Join(EscapeAll(a), ";") == Join(EscapeAll(b), ";")
    ensures a == b
  {
    SplitUndoesJoin(a);
    SplitUndoesJoin(b);
  }

  /** Only backslashes and semicolons are escaped, each by one backslash in front. */
  lemma {:induction false} EscapeAppends(s: string, c: char)
    ensures EscapeComponent(s + [c]) ==
      EscapeComponent(s) + (if c == '\\' then "\\\\" else if c == ';' then "\\;" else [c])
    ensures EscapeComponent("") == ""
  {
    TwoPassesAreOne(s);
    TwoPassesAreOne(s + [c]);
    OnePassAppends(s, c);
  }

  lemma {:induction false} OnePassAppends(s: string, c: char)
    ensures EscapeOnePass(s + [c]) == EscapeOnePass(s) + Escaped(c)
  {
    if s == "" {
      assert s + [c] == [c] && [c][1..] == "";
    } else {
      OnePassAppends(s[1..], c);
      assert (s + [c])[0] == s[0] && (s + [c])[1..] == s[1..] + [c];
    }
  }

  /** What the scanner makes of the next characters: a backslash takes any character after it as it is, and stands for
      itself at the end; a semicolon ends a component. */
  lemma ScannerReads(c: char, rest: string, cur: string)
    ensures Scan(['\\', c] + rest, cur) == Scan(rest, cur + [c])
    ensures Scan("\\", cur) == [cur + "\\"] && Scan("", cur) == [cur]
    ensures Scan([';'] + rest, cur) == [cur] + Scan(rest, "")
    ensures c != ';' && c != '\\' ==> Scan([c] + rest, cur) == Scan(rest, cur + [c])
  {
    assert (['\\', c] + rest)[2..] == rest && ([';'] + rest)[1..] == rest && ([c] + rest)[1..] == rest;
    assert "\\"[1..] == "";
  }
}
