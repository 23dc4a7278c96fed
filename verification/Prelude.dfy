/** Result types and Go string helpers shared by the models.

    A Go string that holds text is modelled as the sequence of its code points. */
module Prelude {
  datatype Option<+T> = None | Some(value: T)

  datatype Result<+T, +E> = Ok(value: T) | Err(error: E)

  /** strings.HasPrefix */
  predicate HasPrefix(s: string, prefix: string) {
    |prefix| <= |s| && s[..|prefix|] == prefix
  }

  /** strings.Cut(s, sep) for a one-byte separator: what precedes and follows its first occurrence. */
  function Cut(s: string, sep: char): (r: Option<(string, string)>)
    ensures r.Some? ==> s == r.value.0 + [sep] + r.value.1 && sep !in r.value.0
    ensures r.None? ==> sep !in s
  {
    if s == "" then None
    else if s[0] == sep then Some(("", s[1..]))
    else
      match Cut(s[1..], sep)
      case None => None
      case Some((before, after)) => Some(([s[0]] + before, after))
  }

  /** The first occurrence decides the cut. */
  lemma {:induction false} CutAt(before: string, sep: char, after: string)
    requires sep !in before
    ensures Cut(before + [sep] + after, sep) == Some((before, after))
  {
    var s := before + [sep] + after;
    if before == "" {
      assert s[1..] == after;
    } else {
      assert s[0] == before[0] && s[1..] == before[1..] + [sep] + after;
      CutAt(before[1..], sep, after);
      assert [before[0]] + before[1..] == before;
    }
  }

  const DOTTED_CAPITAL_I := '\U{130}'
  const DOTLESS_SMALL_I := '\U{131}'
  const LONG_S := '\U{17F}'
  const KELVIN := '\U{212A}'

  /** The characters that case mapping can take into ASCII. */
  predicate NearAscii(c: char) {
    c as int < 128 || c == DOTTED_CAPITAL_I || c == DOTLESS_SMALL_I || c == LONG_S || c == KELVIN
  }

  /** The Unicode case tables for all other characters.  Nothing is assumed of them but that they stay among those. */
  const OTHER_LOWER: map<char, char>
  const OTHER_UPPER: map<char, char>
  const OTHER_FOLD: map<char, char>

  function FromTable(table: map<char, char>, c: char): (r: char)
    requires !NearAscii(c)
    ensures !NearAscii(r)
  {
    if c in table && !NearAscii(table[c]) then table[c] else c
  }

  /** unicode.ToLower: dotted capital I and the Kelvin sign have ASCII lower cases. */
  function LowerChar(c: char): char {
    if 'A' <= c <= 'Z' then c - 'A' + 'a'
    else if c == DOTTED_CAPITAL_I then 'i'
    else if c == KELVIN then 'k'
    else if NearAscii(c) then c
    else FromTable(OTHER_LOWER, c)
  }

  /** unicode.ToUpper: dotless small i and long s have ASCII upper cases. */
  function UpperChar(c: char): char {
    if 'a' <= c <= 'z' then c - 'a' + 'A'
    else if c == DOTLESS_SMALL_I then 'I'
    else if c == LONG_S then 'S'
    else if NearAscii(c) then c
    else FromTable(OTHER_UPPER, c)
  }

  /** The representative of a character under simple case folding: long s and the Kelvin sign fold with ASCII. */
  function FoldChar(c: char): char {
    if 'A' <= c <= 'Z' then c - 'A' + 'a'
    else if c == LONG_S then 's'
    else if c == KELVIN then 'k'
    else if NearAscii(c) then c
    else FromTable(OTHER_FOLD, c)
  }

  /** strings.ToLower */
  function ToLower(s: string): (r: string)
    ensures |r| == |s|
  {
    seq(|s|, i requires 0 <= i < |s| => LowerChar(s[i]))
  }

  /** strings.ToUpper */
  function ToUpper(s: string): (r: string)
    ensures |r| == |s|
  {
    seq(|s|, i requires 0 <= i < |s| => UpperChar(s[i]))
  }

  function ToFold(s: string): (r: string)
    ensures |r| == |s|
  {
    seq(|s|, i requires 0 <= i < |s| => FoldChar(s[i]))
  }

  /** strings.EqualFold */
  predicate EqualFold(s: string, t: string) {
    ToFold(s) == ToFold(t)
  }

  /** A character whose lower case is an ASCII letter: case mapping loses nothing on it, and its upper case is
      neither white space nor punctuation. */
  predicate IsLetterLike(c: char) {
    'a' <= LowerChar(c) <= 'z'
  }

  lemma LetterLikeCases(c: char)
    requires IsLetterLike(c)
    ensures LowerChar(UpperChar(c)) == LowerChar(c) && UpperChar(UpperChar(c)) == UpperChar(c)
    ensures !IsSpace(UpperChar(c)) && UpperChar(c) != ','
  {
  }

  /** Words spelled in such characters only. */
  lemma LetterLikeWord(s: string)
    requires forall i :: 0 <= i < |s| ==> IsLetterLike(s[i])
    ensures ToLower(ToUpper(s)) == ToLower(s) && ToUpper(ToUpper(s)) == ToUpper(s)
    ensures Trimmed(ToUpper(s)) && ',' !in ToUpper(s)
  {
    hide LowerChar, UpperChar, IsSpace;
    forall i | 0 <= i < |s|
      ensures LowerChar(UpperChar(s[i])) == LowerChar(s[i]) && UpperChar(UpperChar(s[i])) == UpperChar(s[i])
      ensures !IsSpace(UpperChar(s[i])) && UpperChar(s[i]) != ','
    {
      LetterLikeCases(s[i]);
    }
  }

  /** strings.HasSuffix */
  predicate HasSuffix(s: string, suffix: string) {
    |suffix| <= |s| && s[|s| - |suffix|..] == suffix
  }

  /** A prefix is what something can follow, and a suffix what something can precede. */
  lemma AffixMeaning(s: string, t: string)
    ensures HasPrefix(s, t) <==> exists rest :: s == t + rest
    ensures HasSuffix(s, t) <==> exists rest :: s == rest + t
  {
    if HasPrefix(s, t) { assert s == t + s[|t|..]; }
    if HasSuffix(s, t) { assert s == s[..|s| - |t|] + t; }
  }

  /** unicode.IsSpace */
  predicate IsSpace(c: char) {
    var n := c as int;
    || 9 <= n <= 13 || n == 32 || n == 0x85 || n == 0xA0
    || n == 0x1680 || 0x2000 <= n <= 0x200A || n == 0x2028 || n == 0x2029 || n == 0x202F || n == 0x205F || n == 0x3000
  }

  function TrimLeft(s: string): (r: string)
    ensures r == "" || (|r| <= |s| && !IsSpace(r[0]) && r == s[|s| - |r|..])
  {
    if s != "" && IsSpace(s[0]) then TrimLeft(s[1..]) else s
  }

  function TrimRight(s: string): (r: string)
    ensures r == "" || (|r| <= |s| && !IsSpace(r[|r| - 1]) && r == s[..|r|])
  {
    if s != "" && IsSpace(s[|s| - 1]) then TrimRight(s[..|s| - 1]) else s
  }

  /** strings.TrimSpace */
  function TrimSpace(s: string): string {
    TrimRight(TrimLeft(s))
  }

  predicate Blank(s: string) {
    forall i :: 0 <= i < |s| ==> IsSpace(s[i])
  }

  lemma {:induction false} TrimLeftBlank(s: string)
    ensures Blank(TrimLeft(s)) <==> Blank(s)
    ensures Blank(s) ==> TrimLeft(s) == ""
  {
    if s != "" && IsSpace(s[0]) {
      TrimLeftBlank(s[1..]);
      assert forall i :: 0 < i < |s| ==> s[i] == s[1..][i - 1];
    }
  }

  lemma {:induction false} TrimRightBlank(s: string)
    ensures Blank(TrimRight(s)) <==> Blank(s)
    ensures Blank(s) ==> TrimRight(s) == ""
  {
    if s != "" && IsSpace(s[|s| - 1]) {
      TrimRightBlank(s[..|s| - 1]);
      assert forall i :: 0 <= i < |s| - 1 ==> s[i] == s[..|s| - 1][i];
    }
  }

  /** Only white space trims to nothing. */
  lemma TrimSpaceBlank(s: string)
    ensures TrimSpace(s) == "" <==> Blank(s)
    ensures Blank(TrimSpace(s)) <==> Blank(s)
  {
    TrimLeftBlank(s);
    TrimRightBlank(TrimLeft(s));
  }

  predicate Trimmed(s: string) {
    s != "" ==> !IsSpace(s[0]) && !IsSpace(s[|s| - 1])
  }

  lemma TrimSpaceTrims(s: string)
    ensures Trimmed(TrimSpace(s))
  {
    var t := TrimSpace(s);
    if t != "" { assert t[0] == TrimLeft(s)[0]; }
  }

  lemma TrimSpaceFixes(s: string)
    requires Trimmed(s)
    ensures TrimSpace(s) == s
  {
  }

  lemma TrimSpaceIdempotent(s: string)
    ensures TrimSpace(TrimSpace(s)) == TrimSpace(s)
  {
    TrimSpaceTrims(s);
    TrimSpaceFixes(TrimSpace(s));
  }

  /** strings.Join */
  function Join(parts: seq<string>, sep: string): string {
    if parts == [] then "" else if |parts| == 1 then parts[0] else parts[0] + sep + Join(parts[1..], sep)
  }

  /** strings.Split for a one-byte separator. */
  function Split(s: string, sep: char): (r: seq<string>)
    ensures r != []
    decreases |s|
  {
    match Cut(s, sep)
    case None => [s]
    case Some((before, after)) => [before] + Split(after, sep)
  }

  lemma {:induction false} JoinSplit(s: string, sep: char)
    ensures Join(Split(s, sep), [sep]) == s
    decreases |s|
  {
    match Cut(s, sep) {
      case None =>
      case Some((before, after)) =>
        JoinSplit(after, sep);
        assert Split(s, sep)[1..] == Split(after, sep);
    }
  }

  /** strconv.Itoa for a natural number. */
  function Itoa(n: nat): (r: string)
    ensures r != "" && forall i :: 0 <= i < |r| ==> '0' <= r[i] <= '9'
  {
    if n < 10 then ['0' + n as char] else Itoa(n / 10) + ['0' + (n % 10) as char]
  }

  lemma {:induction false} ItoaInjective(m: nat, n: nat)
    requires Itoa(m) == Itoa(n)
    ensures m == n
  {
    var s := Itoa(m);
    assert s[|s| - 1] == '0' + (m % 10) as char == '0' + (n % 10) as char;
    if m >= 10 && n >= 10 {
      assert s[..|s| - 1] == Itoa(m / 10) == Itoa(n / 10);
      ItoaInjective(m / 10, n / 10);
    }
  }

  /** The number a string of digits stands for. */
  function Decimal(s: string): int {
    if s == "" then 0 else 10 * Decimal(s[..|s| - 1]) + (s[|s| - 1] as int - '0' as int)
  }

  lemma {:induction false} ItoaIsDecimal(n: nat)
    ensures Decimal(Itoa(n)) == n && (n > 0 ==> Itoa(n)[0] != '0') && Itoa(0) == "0"
  {
    var s := Itoa(n);
    if n >= 10 {
      ItoaIsDecimal(n / 10);
      assert s[..|s| - 1] == Itoa(n / 10);
    } else {
      assert s[..|s| - 1] == "";
    }
  }

  lemma BlankBoth(s: string, t: string)
    requires Blank(s) && Blank(t)
    ensures Blank(s + t)
  {
    hide IsSpace;
  }

  lemma BlankOne(c: char)
    requires IsSpace(c)
    ensures Blank([c]) && Blank("")
  {
    hide IsSpace;
  }

  lemma {:induction false} TrimmedLeft(s: string) returns (k: nat)
    ensures k <= |s| && TrimLeft(s) == s[k..] && Blank(s[..k])
  {
    hide IsSpace, Blank;
    if s != "" && IsSpace(s[0]) {
      var j := TrimmedLeft(s[1..]);
      k := j + 1;
      BlankOne(s[0]);
      BlankBoth([s[0]], s[1..][..j]);
      assert s[..k] == [s[0]] + s[1..][..j] && s[k..] == s[1..][j..];
    } else {
      k := 0;
      BlankOne(' ') by { SpaceIsSpace(); }
      assert s[0..] == s && s[..0] == "";
    }
  }

  lemma SpaceIsSpace()
    ensures IsSpace(' ')
  {
  }

  lemma {:induction false} TrimmedRight(s: string) returns (k: nat)
    ensures k <= |s| && TrimRight(s) == s[..k] && Blank(s[k..])
  {
    hide IsSpace, Blank;
    var n := |s| - 1;
    if s != "" && IsSpace(s[n]) {
      k := TrimmedRight(s[..n]);
      BlankOne(s[n]);
      BlankBoth(s[..n][k..], [s[n]]);
      assert s[k..] == s[..n][k..] + [s[n]] && s[..k] == s[..n][..k];
    } else {
      k := |s|;
      BlankOne(' ') by { SpaceIsSpace(); }
      assert s[..k] == s && s[k..] == "";
    }
  }

  /** Trimming takes white space off both ends and nothing else. */
  lemma TrimSpaceMeaning(s: string) returns (before: string, after: string)
    ensures s == before + TrimSpace(s) + after && Blank(before) && Blank(after)
  {
    hide IsSpace, TrimLeft, TrimRight, Blank;
    var k := TrimmedLeft(s);
    var t := s[k..];
    var n := TrimmedRight(t);
    before, after := s[..k], t[n..];
    assert s == before + t && t == t[..n] + after;
  }

  /** White space and case in ASCII. */
  lemma AsciiCharacters(c: char)
    requires c as int < 128
    ensures IsSpace(c) <==> c == ' ' || c == '\t' || c == '\n' || c == '\r' || c as int == 11 || c as int == 12
    ensures LowerChar(c) as int == if 65 <= c as int <= 90 then c as int + 32 else c as int
    ensures UpperChar(c) as int == if 97 <= c as int <= 122 then c as int - 32 else c as int
    ensures FoldChar(c) == LowerChar(c)
  {
  }

  /** The other white space of Unicode. */
  lemma OtherWhiteSpace(c: char)
    requires c as int >= 128
    ensures var others := "\U{85}\U{A0}\U{1680}\U{2028}\U{2029}\U{202F}\U{205F}\U{3000}";
      IsSpace(c) <==> (c in others || '\U{2000}' <= c <= '\U{200A}')
  {
  }

  /** The characters outside ASCII whose case mapping leads into it. */
  lemma CharactersIntoAscii()
    ensures LowerChar('\U{130}') == 'i' && LowerChar('\U{212A}') == 'k' && UpperChar('\U{131}') == 'I'
    ensures UpperChar('\U{17F}') == 'S' && FoldChar('\U{17F}') == 's' && FoldChar('\U{212A}') == 'k'
    ensures forall c: char :: c as int >= 128 && LowerChar(c) as int < 128 ==> c == '\U{130}' || c == '\U{212A}'
    ensures forall c: char :: c as int >= 128 && UpperChar(c) as int < 128 ==> c == '\U{131}' || c == '\U{17F}'
    ensures forall c: char :: c as int >= 128 && FoldChar(c) as int < 128 ==> c == '\U{17F}' || c == '\U{212A}'
  {
  }
}
