/** Signing-certificate fingerprints of Android passkeys: printing and parsing one, canonical lists of many, and
    the effective state derived from them. */
module Fingerprints {
  import opened Prelude

  newtype byte = b: int | 0 <= b < 256

  type Fingerprint = f: seq<byte> | |f| == 32 witness seq(32, _ => 0)

  // ----- Hexadecimal -----

  function Digit(d: nat): char
    requires d < 16
  {
    if d < 10 then '0' + d as char else 'a' + (d - 10) as char
  }

  /** The value of a hex digit in either case. */
  function DigitValue(c: char): Option<nat> {
    if '0' <= c <= '9' then Some((c - '0') as nat)
    else if 'a' <= c <= 'f' then Some((c - 'a') as nat + 10)
    else if 'A' <= c <= 'F' then Some((c - 'A') as nat + 10)
    else None
  }

  /** hex.EncodeToString */
  function HexEncode(bytes: seq<byte>): (h: string)
    ensures |h| == 2 * |bytes|
  {
    if bytes == [] then ""
    else [Digit(bytes[0] as nat / 16), Digit(bytes[0] as nat % 16)] + HexEncode(bytes[1..])
  }

  /** The byte two hex digits stand for. */
  function ByteOf(hi: char, lo: char): Option<byte> {
    if DigitValue(hi).None? || DigitValue(lo).None? then None
    else
      DigitsAreSmall(hi);
      DigitsAreSmall(lo);
      Some((16 * DigitValue(hi).value + DigitValue(lo).value) as byte)
  }

  /** hex.DecodeString; None for an odd length or a character that is no digit. */
  function HexDecode(s: string): Option<seq<byte>>
    decreases |s|
  {
    if s == "" then Some([])
    else if |s| == 1 || ByteOf(s[0], s[1]).None? || HexDecode(s[2..]).None? then None
    else Some([ByteOf(s[0], s[1]).value] + HexDecode(s[2..]).value)
  }

  lemma DigitsAreSmall(c: char)
    ensures DigitValue(c).Some? ==> DigitValue(c).value < 16 && Digit(DigitValue(c).value) == LowerChar(c)
  {
  }

  lemma DigitOfValue(d: nat, c: char)
    requires d < 16
    ensures DigitValue(c) == Some(d) <==> LowerChar(c) == Digit(d)
  {
  }

  lemma ByteOfMeaning(hi: char, lo: char, b: byte)
    ensures ByteOf(hi, lo) == Some(b) <==>
      LowerChar(hi) == Digit(b as nat / 16) && LowerChar(lo) == Digit(b as nat % 16)
  {
    DigitOfValue(b as nat / 16, hi);
    DigitOfValue(b as nat % 16, lo);
    DigitsAreSmall(hi);
    DigitsAreSmall(lo);
  }

  /** Decoding is the inverse of encoding, up to letter case. */
  lemma {:induction false} HexDecodeMeaning(s: string, bytes: seq<byte>)
    ensures HexDecode(s) == Some(bytes) <==> ToLower(s) == HexEncode(bytes)
    decreases |s|
  {
    hide ByteOf, Digit, LowerChar;
    if |s| >= 2 && bytes != [] {
      HexDecodeMeaning(s[2..], bytes[1..]);
      ByteOfMeaning(s[0], s[1], bytes[0]);
      assert ToLower(s) == [LowerChar(s[0]), LowerChar(s[1])] + ToLower(s[2..]);
      HexHead(LowerChar(s[0]), LowerChar(s[1]), ToLower(s[2..]), bytes);
      assert bytes == [bytes[0]] + bytes[1..];
    }
  }

  lemma HexHead(hi: char, lo: char, rest: string, bytes: seq<byte>)
    requires bytes != []
    ensures [hi, lo] + rest == HexEncode(bytes) <==>
      hi == Digit(bytes[0] as nat / 16) && lo == Digit(bytes[0] as nat % 16) && rest == HexEncode(bytes[1..])
  {
    hide Digit;
    var d, e, more := Digit(bytes[0] as nat / 16), Digit(bytes[0] as nat % 16), HexEncode(bytes[1..]);
    assert HexEncode(bytes) == [d, e] + more;
    if [hi, lo] + rest == [d, e] + more {
      assert ([hi, lo] + rest)[0] == hi && ([hi, lo] + rest)[1] == lo && ([hi, lo] + rest)[2..] == rest;
      assert ([d, e] + more)[2..] == more;
    }
  }

  predicate Visible(c: char) {
    c as int < 128 && !IsSpace(c)
  }

  /** What lower-cases to a visible character is no white space. */
  lemma VisibleLower(c: char)
    requires Visible(LowerChar(c))
    ensures !IsSpace(c)
  {
  }

  lemma {:induction false} HexHasNoColon(bytes: seq<byte>)
    ensures ':' !in HexEncode(bytes) && forall i :: 0 <= i < |HexEncode(bytes)| ==> Visible(HexEncode(bytes)[i])
  {
    if bytes != [] { HexHasNoColon(bytes[1..]); }
  }

  // ----- Pairs and joins -----

  function Pairs(h: string): seq<string> {
    if |h| < 2 then [] else [h[..2]] + Pairs(h[2..])
  }

  function LowerAll(parts: seq<string>): seq<string> {
    if parts == [] then [] else [ToLower(parts[0])] + LowerAll(parts[1..])
  }

  predicate AllPairs(parts: seq<string>) {
    forall k :: 0 <= k < |parts| ==> |parts[k]| == 2
  }

  lemma LowerConcat(s: string, t: string)
    ensures ToLower(s + t) == ToLower(s) + ToLower(t)
  {
  }

  lemma {:induction false} LowerJoin(parts: seq<string>, sep: string)
    requires ToLower(sep) == sep
    ensures ToLower(Join(parts, sep)) == Join(LowerAll(parts), sep)
  {
    hide ToLower;
    if |parts| == 1 {
      assert LowerAll(parts) == [ToLower(parts[0])] by { assert LowerAll(parts[1..]) == []; }
    } else if |parts| > 1 {
      LowerJoin(parts[1..], sep);
      LowerConcat(parts[0] + sep, Join(parts[1..], sep));
      LowerConcat(parts[0], sep);
      assert LowerAll(parts)[1..] == LowerAll(parts[1..]);
      assert |LowerAll(parts)| > 1 by { assert LowerAll(parts[1..]) != []; }
    } else {
      assert ToLower("") == "" by { LowerNothing(); }
    }
  }

  lemma LowerNothing()
    ensures ToLower("") == ""
  {
  }

  lemma {:induction false} PairsOfJoin(parts: seq<string>)
    requires AllPairs(parts)
    ensures Pairs(Join(parts, "")) == parts && |Join(parts, "")| == 2 * |parts|
  {
    if |parts| == 1 {
      assert parts[0][..2] == parts[0] && parts[0][2..] == "";
    } else if |parts| > 1 {
      PairsOfJoin(parts[1..]);
      var all := Join(parts, "");
      assert all == parts[0] + Join(parts[1..], "");
      assert all[..2] == parts[0] && all[2..] == Join(parts[1..], "");
    }
  }

  lemma {:induction false} JoinOfPairs(h: string)
    requires |h| % 2 == 0
    ensures AllPairs(Pairs(h)) && |Pairs(h)| == |h| / 2 && Join(Pairs(h), "") == h
  {
    if h != "" {
      JoinOfPairs(h[2..]);
      assert Pairs(h)[1..] == Pairs(h[2..]);
      assert h == h[..2] + h[2..];
    }
  }

  lemma {:induction false} PairsOfLower(h: string)
    ensures Pairs(ToLower(h)) == LowerAll(Pairs(h))
  {
    if |h| >= 2 {
      PairsOfLower(h[2..]);
      assert ToLower(h)[..2] == ToLower(h[..2]) && ToLower(h)[2..] == ToLower(h[2..]);
      assert Pairs(h)[0] == h[..2] && Pairs(h)[1..] == Pairs(h[2..]);
    }
  }

  lemma {:induction false} PairsHaveNoColon(h: string)
    requires ':' !in h
    ensures forall k :: 0 <= k < |Pairs(h)| ==> ':' !in Pairs(h)[k]
  {
    if |h| >= 2 { PairsHaveNoColon(h[2..]); }
  }

  /** Splitting undoes joining when no part holds the separator. */
  lemma {:induction false} SplitJoin(parts: seq<string>)
    requires parts != [] && forall k :: 0 <= k < |parts| ==> ':' !in parts[k]
    ensures Split(Join(parts, ":"), ':') == parts
  {
    assert ":" == [':'];
    if |parts| == 1 {
      assert Cut(parts[0], ':').None?;
    } else {
      SplitJoin(parts[1..]);
      CutAt(parts[0], ':', Join(parts[1..], ":"));
      assert Join(parts, ":") == parts[0] + [':'] + Join(parts[1..], ":");
    }
  }

  lemma {:induction false} SplitLower(s: string)
    ensures Split(ToLower(s), ':') == LowerAll(Split(s, ':'))
    decreases |s|
  {
    match Cut(s, ':') {
      case None =>
        LowerKeepsColons(s);
        assert Cut(ToLower(s), ':').None?;
      case Some((before, after)) =>
        SplitLower(after);
        LowerConcat(before + [':'], after);
        LowerConcat(before, [':']);
        LowerKeepsColons(before);
        assert ToLower([':']) == [':'];
        CutAt(ToLower(before), ':', ToLower(after));
        assert Split(s, ':')[1..] == Split(after, ':');
    }
  }

  lemma LowerKeepsColons(s: string)
    ensures ':' in ToLower(s) <==> ':' in s
  {
    if ':' in s {
      var i :| 0 <= i < |s| && s[i] == ':';
      assert ToLower(s)[i] == ':';
    }
  }

  lemma {:induction false} LowerAllLengths(parts: seq<string>)
    ensures |LowerAll(parts)| == |parts| && forall k :: 0 <= k < |parts| ==> |LowerAll(parts)[k]| == |parts[k]|
  {
    if parts != [] { LowerAllLengths(parts[1..]); }
  }

  // ----- One fingerprint -----

  datatype Error = Empty | WrongPairCount(n: nat) | NotAPair | WrongDigitCount(n: nat) | NotHex

  /** Fingerprint.Colon: upper-case hex pairs separated by colons. */
  method Colon(f: Fingerprint) returns (s: string)
    ensures s == ColonForm(f)
  {
    hide Pairs, Join, HexEncode, ToUpper;
    var h := ToUpper(HexEncode(f));
    var parts: seq<string> := [];
    var i := 0;
    assert h[0..] == h;
    while i < |h|
      invariant 0 <= i <= |h| && i % 2 == 0
      invariant parts + Pairs(h[i..]) == Pairs(h)
    {
      PairsStep(h, i, parts);
      parts := parts + [h[i..i + 2]];
      i := i + 2;
    }
    PairsEnd(h);
    assert parts + [] == parts;
    return Join(parts, ":");
  }

  lemma PairsStep(h: string, i: nat, done: seq<string>)
    requires i + 2 <= |h|
    ensures done + Pairs(h[i..]) == done + [h[i..i + 2]] + Pairs(h[i + 2..])
  {
    assert h[i..][..2] == h[i..i + 2] && h[i..][2..] == h[i + 2..];
  }

  lemma PairsEnd(h: string)
    ensures Pairs(h[|h|..]) == []
  {
  }

  function ColonForm(f: Fingerprint): string {
    Join(Pairs(ToUpper(HexEncode(f))), ":")
  }

  function ParseDigits(compact: string): Result<Fingerprint, Error> {
    if |compact| != 64 then Err(WrongDigitCount(|compact|))
    else if HexDecode(compact).None? then Err(NotHex)
    else
      HexDecodeMeaning(compact, HexDecode(compact).value);
      Ok(HexDecode(compact).value)
  }

  /** ParseFingerprint: 64 hex digits, or 32 pairs of them separated by colons. */
  function Parse(s: string): Result<Fingerprint, Error> {
    var raw := TrimSpace(s);
    if raw == "" then Err(Empty)
    else if ':' !in raw then ParseDigits(raw)
    else
      var parts := Split(raw, ':');
      if |parts| != 32 then Err(WrongPairCount(|parts|))
      else if !AllPairs(parts) then Err(NotAPair)
      else ParseDigits(Join(parts, ""))
  }

  lemma ParseDigitsMeaning(compact: string, f: Fingerprint)
    ensures ParseDigits(compact) == Ok(f) <==> ToLower(compact) == HexEncode(f)
  {
    HexDecodeMeaning(compact, f);
  }

  function LowerColonForm(f: Fingerprint): string {
    Join(Pairs(HexEncode(f)), ":")
  }

  lemma ColonSplits(f: Fingerprint)
    ensures Split(LowerColonForm(f), ':') == Pairs(HexEncode(f)) && |Pairs(HexEncode(f))| == 32
    ensures ':' in LowerColonForm(f)
  {
    hide Split, HexEncode;
    var pairs := Pairs(HexEncode(f));
    HexHasNoColon(f);
    PairsHaveNoColon(HexEncode(f));
    JoinOfPairs(HexEncode(f));
    SplitJoin(pairs);
    var s := Join(pairs, ":");
    assert s == pairs[0] + ":" + Join(pairs[1..], ":");
    assert s[|pairs[0]|] == ':';
  }

  /** The colon-separated branch accepts exactly the pairs of f, in any case. */
  lemma PairsMeaning(raw: string, f: Fingerprint)
    requires ':' in raw
    ensures |Split(raw, ':')| == 32 && AllPairs(Split(raw, ':')) && ParseDigits(Join(Split(raw, ':'), "")) == Ok(f)
      <==> ToLower(raw) == LowerColonForm(f)
  {
    hide ParseDigits, HexEncode, Split;
    var parts := Split(raw, ':');
    var compact := Join(parts, "");
    ParseDigitsMeaning(compact, f);
    LowerJoin(parts, "") by { LowerNothing(); }
    LowerAllLengths(parts);
    JoinOfPairs(HexEncode(f));
    if ToLower(raw) == LowerColonForm(f) {
      SplitLower(raw);
      ColonSplits(f);
      forall k | 0 <= k < |parts| ensures |parts[k]| == 2 { assert |LowerAll(parts)[k]| == 2; }
    }
    if |parts| == 32 && AllPairs(parts) && ToLower(compact) == HexEncode(f) {
      JoinSplit(raw, ':');
      PairsOfJoin(parts);
      PairsOfLower(compact);
      assert ":" == [':'] && ToLower(":") == ":";
      LowerJoin(parts, ":");
    }
  }

  /** Parsing accepts exactly the two printed forms of a digest, in any letter case and with white space around
      them, and yields that digest. */
  lemma ParseMeaning(s: string, f: Fingerprint)
    ensures Parse(s) == Ok(f) <==>
      ToLower(TrimSpace(s)) == HexEncode(f) || ToLower(TrimSpace(s)) == LowerColonForm(f)
  {
    hide Split, Join, HexEncode, Pairs, ParseDigits, ToLower, TrimSpace;
    var raw := TrimSpace(s);
    ColonSplits(f);
    HexHasNoColon(f);
    LowerKeepsColons(raw);
    if raw == "" {
      LowerNothing();
    } else if ':' in raw {
      PairsMeaning(raw, f);
    } else {
      ParseDigitsMeaning(raw, f);
    }
  }

  lemma {:induction false} JoinHasNoSpace(parts: seq<string>)
    requires forall k, i :: 0 <= k < |parts| && 0 <= i < |parts[k]| ==> Visible(parts[k][i])
    ensures forall i :: 0 <= i < |Join(parts, ":")| ==> Visible(Join(parts, ":")[i])
  {
    if |parts| > 1 {
      JoinHasNoSpace(parts[1..]);
      assert Join(parts, ":") == parts[0] + ":" + Join(parts[1..], ":");
      assert Visible(':');
    }
  }

  lemma {:induction false} PairsHaveNoSpace(h: string)
    requires forall i :: 0 <= i < |h| ==> Visible(h[i])
    ensures forall k, i :: 0 <= k < |Pairs(h)| && 0 <= i < |Pairs(h)[k]| ==> Visible(Pairs(h)[k][i])
  {
    if |h| >= 2 { PairsHaveNoSpace(h[2..]); }
  }

  lemma PrintedIsTrimmed(s: string, f: Fingerprint)
    requires ToLower(s) == HexEncode(f) || ToLower(s) == LowerColonForm(f)
    ensures TrimSpace(s) == s
  {
    hide IsSpace, LowerChar, HexEncode, Pairs, Join;
    HexHasNoColon(f);
    PairsHaveNoSpace(HexEncode(f));
    JoinHasNoSpace(Pairs(HexEncode(f)));
    forall i | 0 <= i < |s| ensures !IsSpace(s[i]) {
      assert ToLower(s)[i] == LowerChar(s[i]);
      VisibleLower(s[i]);
    }
    TrimSpaceFixes(s);
  }

  /** ParseFingerprint undoes Colon for every digest, in either letter case, and reads the compact form as well. */
  lemma ParseUndoesColon(f: Fingerprint, s: string)
    requires ToLower(s) == ToLower(ColonForm(f)) || ToLower(s) == ToLower(HexEncode(f))
    ensures Parse(s) == Ok(f)
  {
    hide HexEncode, Parse;
    var h := HexEncode(f);
    HexIsLower(f);
    HexUpperLower(f);
    assert ToLower(":") == ":";
    LowerJoin(Pairs(ToUpper(h)), ":");
    PairsOfLower(ToUpper(h));
    PrintedIsTrimmed(s, f);
    ParseMeaning(s, f);
  }

  lemma {:induction false} HexUpperLower(bytes: seq<byte>)
    ensures ToLower(ToUpper(HexEncode(bytes))) == HexEncode(bytes)
  {
    if bytes != [] {
      var d, e := Digit(bytes[0] as nat / 16), Digit(bytes[0] as nat % 16);
      HexUpperLower(bytes[1..]);
      assert HexEncode(bytes) == [d, e] + HexEncode(bytes[1..]);
      assert LowerChar(UpperChar(d)) == d && LowerChar(UpperChar(e)) == e;
    }
  }

  lemma {:induction false} HexIsLower(bytes: seq<byte>)
    ensures ToLower(HexEncode(bytes)) == HexEncode(bytes)
  {
    if bytes != [] {
      HexIsLower(bytes[1..]);
      LowerConcat([Digit(bytes[0] as nat / 16), Digit(bytes[0] as nat % 16)], HexEncode(bytes[1..]));
    }
  }

  // ----- Canonical lists -----

  /** The byte-wise order of the digests. */
  predicate Less(a: seq<byte>, b: seq<byte>) {
    b != [] && (a == [] || a[0] < b[0] || (a[0] == b[0] && Less(a[1..], b[1..])))
  }

  lemma {:induction false} LessIsTransitive(a: seq<byte>, b: seq<byte>, c: seq<byte>)
    requires Less(a, b) && Less(b, c)
    ensures Less(a, c)
  {
    if a != [] && a[0] == b[0] && b[0] == c[0] { LessIsTransitive(a[1..], b[1..], c[1..]); }
  }

  lemma {:induction false} LessIsTotal(a: seq<byte>, b: seq<byte>)
    ensures Less(a, b) || Less(b, a) || a == b
    ensures !(Less(a, b) && Less(b, a)) && !Less(a, a)
  {
    if a != [] && b != [] {
      LessIsTotal(a[1..], b[1..]);
      assert a == [a[0]] + a[1..] && b == [b[0]] + b[1..];
    }
    if a != [] { LessIsTotal(a[1..], a[1..]); }
  }

  /** Strictly ascending, hence free of duplicates. */
  predicate Ascending(fs: seq<Fingerprint>) {
    forall i, j :: 0 <= i < j < |fs| ==> Less(fs[i], fs[j])
  }

  function SetOf(fs: seq<Fingerprint>): set<Fingerprint> {
    set f | f in fs
  }

  lemma HeadIsLeast(a: seq<Fingerprint>, b: seq<Fingerprint>)
    requires Ascending(a) && Ascending(b) && SetOf(a) == SetOf(b) && a != [] && b != []
    ensures a[0] == b[0]
  {
    assert a[0] in SetOf(b) && b[0] in SetOf(a);
    var i :| 0 <= i < |b| && b[i] == a[0];
    var j :| 0 <= j < |a| && a[j] == b[0];
    LessIsTotal(a[0], b[0]);
  }

  lemma TailSet(a: seq<Fingerprint>)
    requires Ascending(a) && a != []
    ensures SetOf(a[1..]) == SetOf(a) - {a[0]}
  {
    LessIsTotal(a[0], a[0]);
    assert a == [a[0]] + a[1..];
    assert a[0] !in a[1..];
  }

  /** A set of fingerprints has one strictly ascending list. */
  lemma {:induction false} AscendingIsUnique(a: seq<Fingerprint>, b: seq<Fingerprint>)
    requires Ascending(a) && Ascending(b) && SetOf(a) == SetOf(b)
    ensures a == b
  {
    assert (a != [] ==> a[0] in SetOf(a)) && (b != [] ==> b[0] in SetOf(b));
    if a != [] {
      HeadIsLeast(a, b);
      TailSet(a);
      TailSet(b);
      AscendingIsUnique(a[1..], b[1..]);
      assert a == [a[0]] + a[1..] && b == [b[0]] + b[1..];
    }
  }

  predicate Distinct(fs: seq<Fingerprint>) {
    forall i, j :: 0 <= i < j < |fs| ==> fs[i] != fs[j]
  }

  /** sortFingerprints, on a list without duplicates. */
  method SortFingerprints(fs: seq<Fingerprint>) returns (sorted: seq<Fingerprint>)
    requires Distinct(fs)
    ensures Ascending(sorted) && SetOf(sorted) == SetOf(fs)
  {
    sorted := [];
    for k := 0 to |fs|
      invariant Ascending(sorted) && SetOf(sorted) == SetOf(fs[..k])
    {
      var f := fs[k];
      assert f !in SetOf(fs[..k]);
      SetSnoc(fs[..k], f);
      assert fs[..k + 1] == fs[..k] + [f];
      sorted := Insert(sorted, f);
    }
    assert fs[..|fs|] == fs;
  }

  lemma SetSnoc(fs: seq<Fingerprint>, f: Fingerprint)
    ensures SetOf(fs + [f]) == SetOf(fs) + {f}
  {
  }

  method Insert(sorted: seq<Fingerprint>, f: Fingerprint) returns (longer: seq<Fingerprint>)
    requires Ascending(sorted) && f !in SetOf(sorted)
    ensures Ascending(longer) && SetOf(longer) == SetOf(sorted) + {f}
  {
    var i := 0;
    while i < |sorted| && Less(sorted[i], f)
      invariant 0 <= i <= |sorted|
      invariant forall j :: 0 <= j < i ==> Less(sorted[j], f)
    {
      i := i + 1;
    }
    longer := sorted[..i] + [f] + sorted[i..];
    InsertKeepsOrder(sorted, f, i);
    assert sorted == sorted[..i] + sorted[i..];
  }

  lemma InsertKeepsOrder(sorted: seq<Fingerprint>, f: Fingerprint, i: nat)
    requires Ascending(sorted) && f !in SetOf(sorted) && i <= |sorted|
    requires forall j :: 0 <= j < i ==> Less(sorted[j], f)
    requires i < |sorted| ==> !Less(sorted[i], f)
    ensures Ascending(sorted[..i] + [f] + sorted[i..])
  {
    hide Less;
    forall j | i <= j < |sorted| ensures Less(f, sorted[j]) {
      assert sorted[i] in SetOf(sorted);
      LessIsTotal(sorted[i], f);
      if i < j { LessIsTransitive(f, sorted[i], sorted[j]); }
    }
  }

  predicate IsBlank(s: string) {
    TrimSpace(s) == ""
  }

  /** The error of the first entry that is neither blank nor a fingerprint. */
  function FirstError(entries: seq<string>): Option<Error> {
    if entries == [] then None
    else if !IsBlank(entries[0]) && Parse(entries[0]).Err? then Some(Parse(entries[0]).error)
    else FirstError(entries[1..])
  }

  /** Every entry is blank or a fingerprint. */
  predicate Readable(entries: seq<string>) {
    forall k :: 0 <= k < |entries| ==> IsBlank(entries[k]) || Parse(entries[k]).Ok?
  }

  /** The fingerprints among the entries. */
  function ParsedSet(entries: seq<string>): set<Fingerprint> {
    set k | 0 <= k < |entries| && !IsBlank(entries[k]) && Parse(entries[k]).Ok? :: Parse(entries[k]).value
  }

  lemma {:induction false} FirstErrorIff(entries: seq<string>)
    ensures FirstError(entries).None? <==> Readable(entries)
  {
    hide Parse, IsBlank;
    if entries != [] {
      FirstErrorIff(entries[1..]);
      assert Readable(entries) ==> Readable(entries[1..]);
      assert forall k :: 1 <= k < |entries| ==> entries[k] == entries[1..][k - 1];
    }
  }

  lemma ParsedSnoc(entries: seq<string>, k: nat)
    requires k < |entries|
    ensures ParsedSet(entries[..k + 1]) == ParsedSet(entries[..k]) +
      (if !IsBlank(entries[k]) && Parse(entries[k]).Ok? then {Parse(entries[k]).value} else {})
  {
    hide Parse, IsBlank;
    var all, before := entries[..k + 1], entries[..k];
    forall f ensures f in ParsedSet(all) <==>
      f in ParsedSet(before) || (!IsBlank(entries[k]) && Parse(entries[k]).Ok? && f == Parse(entries[k]).value)
    {
      if f in ParsedSet(before) {
        var j :| 0 <= j < |before| && !IsBlank(before[j]) && Parse(before[j]).Ok? && f == Parse(before[j]).value;
        assert all[j] == before[j];
      }
      assert all[k] == entries[k];
      if f in ParsedSet(all) {
        var j :| 0 <= j < |all| && !IsBlank(all[j]) && Parse(all[j]).Ok? && f == Parse(all[j]).value;
        assert j < k ==> before[j] == all[j];
      }
    }
  }

  /** ParseFingerprints: the first error, or the strictly ascending list of exactly the fingerprints given. */
  method ParseFingerprints(entries: seq<string>) returns (r: Result<seq<Fingerprint>, Error>)
    ensures FirstError(entries).Some? ==> r == Err(FirstError(entries).value)
    ensures FirstError(entries).None? ==> r.Ok? && Ascending(r.value) && SetOf(r.value) == ParsedSet(entries)
  {
    hide Parse, Less;
    var seen: set<Fingerprint> := {};
    var out: seq<Fingerprint> := [];
    for k := 0 to |entries|
      invariant FirstError(entries) == FirstError(entries[k..])
      invariant seen == SetOf(out) == ParsedSet(entries[..k]) && Distinct(out)
    {
      ParsedSnoc(entries, k);
      assert entries[k..][1..] == entries[k + 1..];
      if TrimSpace(entries[k]) == "" { continue; }
      var parsed := Parse(entries[k]);
      if parsed.Err? { return Err(parsed.error); }
      var f := parsed.value;
      if f !in seen {
        seen := seen + {f};
        SetSnoc(out, f);
        out := out + [f];
      }
    }
    assert entries[..|entries|] == entries;
    var sorted := SortFingerprints(out);
    return Ok(sorted);
  }

  // ----- The effective state -----

  datatype Reason = NotEnabled | BadOrigin(why: string) | BadFingerprint(error: Error) | NoFingerprints

  datatype State = Off(reason: Reason) | Effective(fingerprints: seq<Fingerprint>)

  /** The fingerprints that count for an instance: the built-in ones and the operator's. */
  function Known(builtin: seq<Fingerprint>, operator: seq<string>): set<Fingerprint> {
    SetOf(builtin) + ParsedSet(operator)
  }

  /** What the state must be; originError is the verdict on the front-end URL. */
  predicate IsState(builtin: seq<Fingerprint>, originError: Option<string>, enabled: bool, operator: seq<string>,
                    s: State) {
    if !enabled then s == Off(NotEnabled)
    else if originError.Some? then s == Off(BadOrigin(originError.value))
    else if FirstError(operator).Some? then s == Off(BadFingerprint(FirstError(operator).value))
    else if Known(builtin, operator) == {} then s == Off(NoFingerprints)
    else s.Effective? && Ascending(s.fingerprints) && SetOf(s.fingerprints) == Known(builtin, operator)
  }

  /** resolve */
  method Resolve(builtin: seq<Fingerprint>, originError: Option<string>, enabled: bool,
                 operator: seq<string>) returns (s: State)
    ensures IsState(builtin, originError, enabled, operator, s)
  {
    hide Parse, Less, FirstError, ParsedSet;
    if !enabled { return Off(NotEnabled); }
    if originError.Some? { return Off(BadOrigin(originError.value)); }
    var extra := ParseFingerprints(operator);
    if extra.Err? { return Off(BadFingerprint(extra.error)); }
    var both := builtin + extra.value;
    assert SetOf(both) == SetOf(builtin) + SetOf(extra.value);
    var seen: set<Fingerprint> := {};
    var all: seq<Fingerprint> := [];
    for k := 0 to |both|
      invariant seen == SetOf(all) == SetOf(both[..k]) && Distinct(all)
    {
      SetSnoc(both[..k], both[k]);
      assert both[..k + 1] == both[..k] + [both[k]];
      if both[k] !in seen {
        seen := seen + {both[k]};
        SetSnoc(all, both[k]);
        all := all + [both[k]];
      }
    }
    assert both[..|both|] == both;
    if |all| == 0 { return Off(NoFingerprints); }
    assert all[0] in SetOf(all);
    var sorted := SortFingerprints(all);
    return Effective(sorted);
  }

  /** The ceremony origins, given the origin of one certificate; none when the feature is off. */
  function OriginsOf(s: State, origin: Fingerprint -> string): seq<string> {
    if s.Off? then [] else seq(|s.fingerprints|, i requires 0 <= i < |s.fingerprints| => origin(s.fingerprints[i]))
  }

  /** State.Origins */
  method Origins(s: State, origin: Fingerprint -> string) returns (out: seq<string>)
    ensures out == OriginsOf(s, origin)
  {
    if s.Off? { return []; }
    out := [];
    for k := 0 to |s.fingerprints|
      invariant out == seq(k, i requires 0 <= i < k => origin(s.fingerprints[i]))
    {
      out := out + [origin(s.fingerprints[k])];
    }
  }

  /** Two operator lists with the same entries, in any order and however often. */
  predicate SameEntries(a: seq<string>, b: seq<string>) {
    && (forall k :: 0 <= k < |a| ==> a[k] in b)
    && (forall k :: 0 <= k < |b| ==> b[k] in a)
  }

  lemma SameEntriesParse(a: seq<string>, b: seq<string>)
    requires SameEntries(a, b)
    ensures Readable(a) <==> Readable(b)
    ensures ParsedSet(a) == ParsedSet(b)
  {
    hide Parse, IsBlank;
    ParsedSubset(a, b);
    ParsedSubset(b, a);
  }

  lemma ParsedSubset(a: seq<string>, b: seq<string>)
    requires forall k :: 0 <= k < |a| ==> a[k] in b
    ensures Readable(b) ==> Readable(a)
    ensures ParsedSet(a) <= ParsedSet(b)
  {
    hide Parse, IsBlank;
    if Readable(b) {
      forall k | 0 <= k < |a| ensures IsBlank(a[k]) || Parse(a[k]).Ok? {
        var j :| 0 <= j < |b| && b[j] == a[k];
      }
    }
    forall f | f in ParsedSet(a) ensures f in ParsedSet(b) {
      var k :| 0 <= k < |a| && !IsBlank(a[k]) && Parse(a[k]).Ok? && f == Parse(a[k]).value;
      var j :| 0 <= j < |b| && b[j] == a[k];
      assert f == Parse(b[j]).value;
    }
  }

  /** Permuting or repeating operator entries changes neither whether the feature is on, nor the fingerprints, nor
      the origins. */
  lemma OrderDoesNotMatter(builtin: seq<Fingerprint>, originError: Option<string>, enabled: bool,
                           a: seq<string>, b: seq<string>, s: State, t: State, origin: Fingerprint -> string)
    requires SameEntries(a, b)
    requires IsState(builtin, originError, enabled, a, s) && IsState(builtin, originError, enabled, b, t)
    ensures s.Effective? <==> t.Effective?
    ensures s.Effective? ==> s == t
    ensures OriginsOf(s, origin) == OriginsOf(t, origin)
  {
    hide Parse, Less, ParsedSet, FirstError;
    FirstErrorIff(a);
    FirstErrorIff(b);
    SameEntriesParse(a, b);
    if s.Effective? && t.Effective? { AscendingIsUnique(s.fingerprints, t.fingerprints); }
  }

  /** The reason, though, is that of the first bad entry, so it can change with the order. */
  lemma ReasonFollowsOrder(builtin: seq<Fingerprint>, x: string, y: string, s: State, t: State)
    requires !IsBlank(x) && !IsBlank(y) && Parse(x).Err? && Parse(y).Err? && Parse(x) != Parse(y)
    requires IsState(builtin, None, true, [x, y], s) && IsState(builtin, None, true, [y, x], t)
    ensures s.Off? && t.Off? && s != t
  {
    hide Parse, IsBlank, ParsedSet, Less;
    assert [x, y][0] == x && [y, x][0] == y;
  }

  // ----- The printed forms, character by character -----

  const LOWER_DIGITS := "0123456789abcdef"
  const UPPER_DIGITS := "0123456789ABCDEF"

  lemma {:induction false} HexAt(bytes: seq<byte>, k: nat)
    requires k < |bytes|
    ensures HexEncode(bytes)[2 * k] == LOWER_DIGITS[bytes[k] / 16]
    ensures HexEncode(bytes)[2 * k + 1] == LOWER_DIGITS[bytes[k] % 16]
  {
    if k > 0 {
      HexAt(bytes[1..], k - 1);
      assert HexEncode(bytes)[2 * k] == HexEncode(bytes[1..])[2 * (k - 1)];
      assert HexEncode(bytes)[2 * k + 1] == HexEncode(bytes[1..])[2 * (k - 1) + 1];
    }
  }

  lemma {:induction false} PairsAt(h: string, k: nat)
    requires 2 * k + 2 <= |h|
    ensures k < |Pairs(h)| && Pairs(h)[k] == h[2 * k..2 * k + 2]
  {
    if k > 0 {
      PairsAt(h[2..], k - 1);
      assert h[2..][2 * (k - 1)..2 * (k - 1) + 2] == h[2 * k..2 * k + 2];
    }
  }

  lemma {:induction false} JoinAt(parts: seq<string>, k: nat)
    requires AllPairs(parts) && k < |parts|
    ensures |Join(parts, ":")| == 3 * |parts| - 1
    ensures Join(parts, ":")[3 * k..3 * k + 2] == parts[k]
    ensures k + 1 < |parts| ==> Join(parts, ":")[3 * k + 2] == ':'
  {
    if |parts| > 1 {
      var rest := Join(parts[1..], ":");
      var all := Join(parts, ":");
      assert all == parts[0] + ":" + rest;
      JoinAt(parts[1..], if k == 0 then 0 else k - 1);
      if k > 0 { assert all[3 * k..3 * k + 2] == rest[3 * (k - 1)..3 * (k - 1) + 2]; }
    }
  }

  lemma UpperDigit(d: nat)
    requires d < 16
    ensures UpperChar(LOWER_DIGITS[d]) == UPPER_DIGITS[d]
  {
  }

  /** The colon form: 95 characters, each byte as two upper-case digits, a colon after every pair but the last. */
  lemma ColonAt(f: Fingerprint, k: nat)
    requires k < 32
    ensures var s := ColonForm(f);
      && |s| == 95 && s[3 * k] == UPPER_DIGITS[f[k] / 16] && s[3 * k + 1] == UPPER_DIGITS[f[k] % 16]
      && (k < 31 ==> s[3 * k + 2] == ':')
  {
    hide HexEncode, UpperChar, Pairs, Join;
    var h := ToUpper(HexEncode(f));
    JoinOfPairs(h);
    PairsAt(h, k);
    JoinAt(Pairs(h), k);
    HexAt(f, k);
    UpperDigit(f[k] as nat / 16);
    UpperDigit(f[k] as nat % 16);
    assert ColonForm(f)[3 * k..3 * k + 2] == h[2 * k..2 * k + 2];
    assert ColonForm(f)[3 * k] == h[2 * k..2 * k + 2][0] && ColonForm(f)[3 * k + 1] == h[2 * k..2 * k + 2][1];
  }

  /** Of two digests the one with the smaller byte where they first differ comes first. */
  lemma {:induction false} LessIff(a: seq<byte>, b: seq<byte>)
    requires |a| == |b|
    ensures Less(a, b) <==> exists k :: 0 <= k < |a| && a[..k] == b[..k] && a[k] < b[k]
  {
    if a != [] {
      LessIff(a[1..], b[1..]);
      if a[0] < b[0] { assert a[..0] == b[..0]; }
      if k :| 0 <= k < |a| && a[..k] == b[..k] && a[k] < b[k] {
        if k > 0 {
          assert a[0] == a[..k][0] == b[..k][0] == b[0];
          assert a[1..][..k - 1] == a[..k][1..] == b[..k][1..] == b[1..][..k - 1];
          assert a[1..][k - 1] < b[1..][k - 1];
        }
      }
      if a[0] == b[0] && Less(a[1..], b[1..]) {
        var k :| 0 <= k < |a[1..]| && a[1..][..k] == b[1..][..k] && a[1..][k] < b[1..][k];
        assert a[..k + 1] == [a[0]] + a[1..][..k] == b[..k + 1];
        assert a[k + 1] < b[k + 1];
      }
    }
  }

  /** How parsing fails: on nothing, on the wrong number of pairs, on a part that is no pair, on the wrong number of
      digits, and on something that is no digit. */
  lemma ParseFailures(s: string, parts: seq<string>)
    requires Trimmed(s)
    ensures s == "" ==> Parse(s) == Err(Empty)
    ensures s != "" && ':' !in s && |s| != 64 ==> Parse(s) == Err(WrongDigitCount(|s|))
    ensures s != "" && ':' !in s && |s| == 64 && (exists i :: 0 <= i < 64 && DigitValue(s[i]) == None) ==>
      Parse(s) == Err(NotHex)
    ensures s == Join(parts, ":") && |parts| >= 2 && (forall k :: 0 <= k < |parts| ==> ':' !in parts[k]) ==>
      (|parts| != 32 ==> Parse(s) == Err(WrongPairCount(|parts|)))
      && (|parts| == 32 && (exists k :: 0 <= k < 32 && |parts[k]| != 2) ==> Parse(s) == Err(NotAPair))
  {
    hide HexDecode, Split, Join, DigitValue, TrimSpace;
    TrimSpaceFixes(s);
    if ':' !in s && |s| == 64 {
      if i :| 0 <= i < 64 && DigitValue(s[i]) == None { NoDigitNoBytes(s, i); }
    }
    if s == Join(parts, ":") && |parts| >= 2 && (forall k :: 0 <= k < |parts| ==> ':' !in parts[k]) {
      SplitJoin(parts);
      JoinHasColon(parts);
    }
  }

  lemma JoinHasColon(parts: seq<string>)
    requires |parts| >= 2
    ensures ':' in Join(parts, ":")
  {
    var rest := Join(parts[1..], ":");
    assert Join(parts, ":") == parts[0] + ":" + rest;
    assert Join(parts, ":")[|parts[0]|] == ':';
  }

  lemma {:induction false} NoDigitNoBytes(s: string, i: nat)
    requires i < |s| && DigitValue(s[i]) == None
    ensures HexDecode(s) == None
    decreases |s|
  {
    hide DigitValue;
    if i >= 2 {
      assert s[2..][i - 2] == s[i];
      NoDigitNoBytes(s[2..], i - 2);
    }
  }

  /** Which characters are digits. */
  lemma DigitsAre(c: char)
    ensures DigitValue(c) != None <==> c in "0123456789abcdefABCDEF"
  {
  }

  /** Why the feature is off: the first of these reasons that applies. */
  lemma ReasonsInOrder(builtin: seq<Fingerprint>, originError: Option<string>, enabled: bool, operator: seq<string>,
                       s: State)
    requires IsState(builtin, originError, enabled, operator, s)
    ensures !enabled ==> s == Off(NotEnabled)
    ensures enabled && originError.Some? ==> s == Off(BadOrigin(originError.value))
    ensures enabled && originError == None && !Readable(operator) ==>
      exists k :: 0 <= k < |operator| && !IsBlank(operator[k]) && Parse(operator[k]).Err?
        && s == Off(BadFingerprint(Parse(operator[k]).error))
        && forall j :: 0 <= j < k ==> IsBlank(operator[j]) || Parse(operator[j]).Ok?
    ensures enabled && originError == None && Readable(operator) && builtin == [] && ParsedSet(operator) == {} ==>
      s == Off(NoFingerprints)
    ensures enabled && originError == None && Readable(operator) && (builtin != [] || ParsedSet(operator) != {}) ==>
      s.Effective? && forall f :: f in s.fingerprints <==> f in builtin || f in ParsedSet(operator)
  {
    hide Parse, IsBlank, ParsedSet, FirstError;
    FirstErrorIff(operator);
    if FirstError(operator).Some? {
      var k := FirstErrorAt(operator);
    }
    if builtin != [] { assert builtin[0] in SetOf(builtin); }
    if s.Effective? {
      forall f ensures f in s.fingerprints <==> f in Known(builtin, operator) {
        assert f in s.fingerprints <==> f in SetOf(s.fingerprints);
      }
    }
  }

  /** One origin for each fingerprint, in order, and none without one. */
  lemma OneOriginEach(fs: seq<Fingerprint>, reason: Reason, origin: Fingerprint -> string)
    ensures OriginsOf(Off(reason), origin) == []
    ensures |OriginsOf(Effective(fs), origin)| == |fs|
    ensures forall i :: 0 <= i < |fs| ==> OriginsOf(Effective(fs), origin)[i] == origin(fs[i])
  {
  }

  lemma {:induction false} FirstErrorAt(entries: seq<string>) returns (k: nat)
    requires FirstError(entries).Some?
    ensures k < |entries| && !IsBlank(entries[k]) && Parse(entries[k]).Err?
    ensures FirstError(entries) == Some(Parse(entries[k]).error)
    ensures forall j :: 0 <= j < k ==> IsBlank(entries[j]) || Parse(entries[j]).Ok?
  {
    hide Parse, IsBlank;
    if !IsBlank(entries[0]) && Parse(entries[0]).Err? {
      k := 0;
    } else {
      var m := FirstErrorAt(entries[1..]);
      k := m + 1;
      assert forall j :: 1 <= j < k ==> entries[j] == entries[1..][j - 1];
    }
  }
}
