/** The bounded loss-report header of an export: the longest list of diagnostics whose URL-encoded JSON fits,
    found by binary search. */
module ExportLoss {
  import opened Prelude

  const MAX_HEADER_BYTES := 3072

  // ----- url.QueryEscape -----

  predicate Unreserved(c: char) {
    'a' <= c <= 'z' || 'A' <= c <= 'Z' || '0' <= c <= '9' || c == '-' || c == '_' || c == '.' || c == '~'
  }

  function Hex(d: nat): char
    requires d < 16
  {
    "0123456789ABCDEF"[d]
  }

  function EscapeByte(c: char): string {
    if Unreserved(c) then [c]
    else if c == ' ' then "+"
    else var b := c as int % 256; ['%', Hex(b / 16), Hex(b % 16)]
  }

  function QueryEscape(s: string): string {
    if s == "" then "" else EscapeByte(s[0]) + QueryEscape(s[1..])
  }

  lemma {:induction false} QueryEscapeConcat(s: string, t: string)
    ensures QueryEscape(s + t) == QueryEscape(s) + QueryEscape(t)
  {
    hide EscapeByte;
    if s == "" {
      assert s + t == t;
    } else {
      QueryEscapeConcat(s[1..], t);
      assert (s + t)[0] == s[0] && (s + t)[1..] == s[1..] + t;
      var head, rest, after := EscapeByte(s[0]), QueryEscape(s[1..]), QueryEscape(t);
      assert QueryEscape(s + t) == head + (rest + after);
      assert head + (rest + after) == head + rest + after;
    }
  }

  // ----- The header's JSON -----

  /** The header's content: format and each diagnostic as the JSON encoder renders them; the list may be nil. */
  datatype Report = Report(format: string, list: Option<seq<string>>) {
    function Diagnostics(): seq<string> {
      if list.None? then [] else list.value
    }
  }

  function JsonBool(b: bool): string {
    if b then "true" else "false"
  }

  function Head(r: Report, truncated: bool): string {
    "{\"format\":" + r.format + ",\"count\":" + Itoa(|r.Diagnostics()|) + ",\"truncated\":"
        + JsonBool(truncated) + ",\"diagnostics\":"
  }

  /** The first k diagnostics; a nil slice is rendered as null. */
  function List(r: Report, k: nat): string
    requires k <= |r.Diagnostics()|
  {
    if r.list.None? then "null" else "[" + Join(r.list.value[..k], ",") + "]"
  }

  /** json.Marshal of the header that keeps the first k diagnostics. */
  function Json(r: Report, k: nat, truncated: bool): string
    requires k <= |r.Diagnostics()|
  {
    Head(r, truncated) + List(r, k) + "}"
  }

  function EncodeAt(r: Report, k: nat, truncated: bool): string
    requires k <= |r.Diagnostics()|
  {
    QueryEscape(Json(r, k, truncated))
  }

  lemma {:induction false} JoinSnoc(parts: seq<string>, last: string)
    ensures Join(parts + [last], ",") == Join(parts, ",") + (if parts == [] then "" else ",") + last
  {
    if parts == [] {
      assert parts + [last] == [last];
    } else {
      JoinSnoc(parts[1..], last);
      assert (parts + [last])[0] == parts[0] && (parts + [last])[1..] == parts[1..] + [last];
    }
  }

  /** The encoding is cut from the same cloth for every k: an escaped head, the escaped list, an escaped brace. */
  lemma EncodedParts(r: Report, k: nat, truncated: bool)
    requires k <= |r.Diagnostics()|
    ensures EncodeAt(r, k, truncated) == QueryEscape(Head(r, truncated)) + QueryEscape(List(r, k)) + QueryEscape("}")
  {
    hide QueryEscape, Head, List;
    QueryEscapeConcat(Head(r, truncated) + List(r, k), "}");
    QueryEscapeConcat(Head(r, truncated), List(r, k));
  }

  lemma ListParts(r: Report, k: nat)
    requires r.list.Some? && k <= |r.list.value|
    ensures QueryEscape(List(r, k)) == QueryEscape("[") + QueryEscape(Join(r.list.value[..k], ",")) + QueryEscape("]")
  {
    hide QueryEscape, Join;
    QueryEscapeConcat("[" + Join(r.list.value[..k], ","), "]");
    QueryEscapeConcat("[", Join(r.list.value[..k], ","));
  }

  /** One more diagnostic never makes the encoding shorter. */
  lemma OneMoreIsNoShorter(r: Report, k: nat, truncated: bool)
    requires k < |r.Diagnostics()|
    ensures |EncodeAt(r, k, truncated)| <= |EncodeAt(r, k + 1, truncated)|
  {
    hide QueryEscape, Head, Join, EncodeAt, List;
    EncodedParts(r, k, truncated);
    EncodedParts(r, k + 1, truncated);
    ListParts(r, k);
    ListParts(r, k + 1);
    var all := r.list.value;
    var shorter, more := Join(all[..k], ","), (if k == 0 then "" else ",") + all[k];
    JoinSnoc(all[..k], all[k]);
    assert all[..k + 1] == all[..k] + [all[k]];
    assert Join(all[..k + 1], ",") == shorter + more;
    QueryEscapeConcat(shorter, more);
  }

  lemma {:induction false} EncodedLengthGrows(r: Report, j: nat, k: nat, truncated: bool)
    requires j <= k <= |r.Diagnostics()|
    ensures |EncodeAt(r, j, truncated)| <= |EncodeAt(r, k, truncated)|
    decreases k - j
  {
    hide EncodeAt;
    if j < k {
      OneMoreIsNoShorter(r, j, truncated);
      EncodedLengthGrows(r, j + 1, k, truncated);
    }
  }

  // ----- Dropping one diagnostic at a time -----

  predicate Fits(r: Report, k: nat)
    requires k <= |r.Diagnostics()|
  {
    |EncodeAt(r, k, true)| <= MAX_HEADER_BYTES
  }

  /** From k kept diagnostics down: drop the last one until the encoding fits or none is left. */
  function DropUntilFits(r: Report, k: nat): (kept: nat)
    requires k <= |r.Diagnostics()|
    ensures kept <= k
  {
    if k == 0 || Fits(r, k) then k else DropUntilFits(r, k - 1)
  }

  /** The header's value by that rule. */
  function HeaderValue(r: Report): string {
    var n := |r.Diagnostics()|;
    var full := EncodeAt(r, n, false);
    if |full| <= MAX_HEADER_BYTES || n == 0 then full else EncodeAt(r, DropUntilFits(r, n - 1), true)
  }

  /** Dropping stops at the largest number that fits, or at none. */
  lemma {:induction false} DropIsLargest(r: Report, k: nat, best: nat)
    requires best <= k <= |r.Diagnostics()|
    requires best == 0 || Fits(r, best)
    requires forall j :: best < j <= k ==> !Fits(r, j)
    ensures DropUntilFits(r, k) == best
    decreases k
  {
    hide Fits;
    if best < k { DropIsLargest(r, k - 1, best); }
  }

  lemma FitsBelow(r: Report, j: nat, k: nat)
    requires j <= k <= |r.Diagnostics()| && Fits(r, k)
    ensures Fits(r, j)
  {
    EncodedLengthGrows(r, j, k, true);
  }

  /** setExportLossReportHeader: the binary search picks what dropping one at a time would. */
  method SetExportLossReportHeader(r: Report) returns (header: string)
    ensures header == HeaderValue(r)
  {
    hide EncodeAt;
    var n := |r.Diagnostics()|;
    var full := EncodeAt(r, n, false);
    if |full| <= MAX_HEADER_BYTES || n == 0 { return full; }
    var best := EncodeAt(r, 0, true);
    var lo, hi := 0, n - 1;
    while lo <= hi
      invariant 0 <= lo <= n && -1 <= hi < n && lo <= hi + 1
      invariant best == EncodeAt(r, if lo == 0 then 0 else lo - 1, true)
      invariant lo > 0 ==> Fits(r, lo - 1)
      invariant forall j :: hi < j < n ==> !Fits(r, j)
    {
      var mid := lo + (hi - lo) / 2;
      var enc := EncodeAt(r, mid, true);
      if |enc| <= MAX_HEADER_BYTES {
        best := enc;
        lo := mid + 1;
      } else {
        assert !Fits(r, mid);
        forall j | mid <= j < n ensures !Fits(r, j) {
          if Fits(r, j) { FitsBelow(r, mid, j); }
        }
        hi := mid - 1;
      }
    }
    DropIsLargest(r, n - 1, if lo == 0 then 0 else lo - 1);
    return best;
  }

  /** k is the largest proper prefix of the diagnostics that fits, or 0 if none does. */
  predicate IsLargestFit(r: Report, k: nat) {
    && k < |r.Diagnostics()| && (k == 0 || Fits(r, k))
    && forall j :: k < j < |r.Diagnostics()| ==> !Fits(r, j)
  }

  /** What the header carries: everything if that fits; otherwise, marked truncated, the largest proper prefix of the
      diagnostics that fits, or none of them when not even one fits. */
  lemma HeaderMeaning(r: Report)
    ensures var n, full := |r.Diagnostics()|, EncodeAt(r, |r.Diagnostics()|, false);
      if |full| <= MAX_HEADER_BYTES || n == 0 then HeaderValue(r) == full
      else exists k: nat :: IsLargestFit(r, k) && HeaderValue(r) == EncodeAt(r, k, true)
  {
    hide EncodeAt;
    var n := |r.Diagnostics()|;
    if n > 0 {
      DropStops(r, n - 1);
      var kept := DropUntilFits(r, n - 1);
      assert |EncodeAt(r, n, false)| > MAX_HEADER_BYTES ==> HeaderValue(r) == EncodeAt(r, kept, true);
    }
  }

  lemma {:induction false} DropStops(r: Report, k: nat)
    requires k <= |r.Diagnostics()|
    ensures var kept := DropUntilFits(r, k); (kept == 0 || Fits(r, kept)) && forall j :: kept < j <= k ==> !Fits(r, j)
  {
    hide Fits;
    if k > 0 && !Fits(r, k) { DropStops(r, k - 1); }
  }

  /** The bound is kept exactly when the empty truncated header, or the whole one, is within it. */
  lemma BoundIsKeptIff(r: Report)
    ensures |HeaderValue(r)| <= MAX_HEADER_BYTES <==>
      |EncodeAt(r, |r.Diagnostics()|, false)| <= MAX_HEADER_BYTES || (r.Diagnostics() != [] && Fits(r, 0))
  {
    hide EncodeAt;
    var n := |r.Diagnostics()|;
    if n > 0 && |EncodeAt(r, n, false)| > MAX_HEADER_BYTES {
      DropStops(r, n - 1);
      var kept := DropUntilFits(r, n - 1);
      if Fits(r, kept) { FitsBelow(r, 0, kept); }
    }
  }

  // ----- The header's text -----

  /** The value of an upper-case hex digit. */
  function DigitOf(c: char): int {
    if '0' <= c <= '9' then c as int - '0' as int else c as int - 'A' as int + 10
  }

  /** url.QueryUnescape, on escapes with upper-case digits. */
  function QueryUnescape(s: string): string
    decreases |s|
  {
    if s == "" then ""
    else if s[0] == '+' then " " + QueryUnescape(s[1..])
    else if s[0] == '%' && |s| >= 3 && 0 <= 16 * DigitOf(s[1]) + DigitOf(s[2]) < 256 then
      [(16 * DigitOf(s[1]) + DigitOf(s[2])) as char] + QueryUnescape(s[3..])
    else [s[0]] + QueryUnescape(s[1..])
  }

  /** The alphabet of a query value. */
  predicate QuerySafe(c: char) {
    var n := c as int;
    || 48 <= n <= 57 || 65 <= n <= 90 || 97 <= n <= 122
    || c == '-' || c == '_' || c == '.' || c == '~' || c == '+' || c == '%'
  }

  lemma OneByteComesBack(c: char, rest: string)
    requires c as int < 256
    ensures QueryUnescape(EscapeByte(c) + rest) == [c] + QueryUnescape(rest)
    ensures forall i :: 0 <= i < |EscapeByte(c)| ==> QuerySafe(EscapeByte(c)[i])
  {
    hide Hex, DigitOf;
    var e := EscapeByte(c) + rest;
    if !Unreserved(c) && c != ' ' {
      var b := c as int;
      HexIsDigit(b / 16);
      HexIsDigit(b % 16);
      assert e[0] == '%' && e[1] == Hex(b / 16) && e[2] == Hex(b % 16) && e[3..] == rest;
    } else {
      assert e[1..] == rest;
    }
  }

  lemma HexIsDigit(d: nat)
    requires d < 16
    ensures DigitOf(Hex(d)) == d && QuerySafe(Hex(d))
  {
  }

  /** Escaping is undone by unescaping, and leaves only characters that are safe in a header. */
  lemma {:induction false} EscapeComesBack(s: string)
    requires forall i :: 0 <= i < |s| ==> s[i] as int < 256
    ensures QueryUnescape(QueryEscape(s)) == s
    ensures forall i :: 0 <= i < |QueryEscape(s)| ==> QuerySafe(QueryEscape(s)[i])
  {
    hide EscapeByte, QuerySafe;
    if s != "" {
      EscapeComesBack(s[1..]);
      OneByteComesBack(s[0], QueryEscape(s[1..]));
      assert s == [s[0]] + s[1..];
    }
  }

  /** Letters, digits and four marks stay as they are; everything else but the space takes three characters. */
  lemma EscapedLength(c: char)
    ensures var n := c as int;
      var plain := 48 <= n <= 57 || 65 <= n <= 90 || 97 <= n <= 122 || n == 45 || n == 46 || n == 95 || n == 126;
      if plain then EscapeByte(c) == [c] else if n == 32 then EscapeByte(c) == "+" else |EscapeByte(c)| == 3
  {
  }

  /** The JSON of a header, spelled out: the count is that of all diagnostics, however many are kept. */
  lemma JsonText(r: Report, k: nat, truncated: bool)
    requires k <= |r.Diagnostics()|
    ensures Json(r, k, truncated) ==
      "{\"format\":" + r.format + ",\"count\":" + Itoa(|r.Diagnostics()|) + ",\"truncated\":"
        + (if truncated then "true" else "false") + ",\"diagnostics\":"
        + (if r.list == None then "null" else "[" + Join(r.list.value[..k], ",") + "]") + "}"
  {
    hide Itoa, Join;
  }

  /** A short report goes out whole; the bound is 3072 bytes. */
  lemma ShortReport(r: Report)
    ensures |QueryEscape(Json(r, |r.Diagnostics()|, false))| <= 3072 ==>
      HeaderValue(r) == QueryEscape(Json(r, |r.Diagnostics()|, false))
    ensures |QueryEscape(Json(r, |r.Diagnostics()|, false))| > 3072 && r.Diagnostics() != [] ==>
      exists k: nat :: k < |r.Diagnostics()| && HeaderValue(r) == QueryEscape(Json(r, k, true))
        && (k > 0 ==> |HeaderValue(r)| <= 3072)
  {
    hide QueryEscape, Json;
    HeaderMeaning(r);
  }
}
