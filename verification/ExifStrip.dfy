/** Stripping Exif from JPEG and PNG bytes: two walkers that copy everything but the Exif pieces and
    return the input untouched when its structure is not what they expect. */
module ExifStrip {
  import opened Prelude

  newtype byte = b: int | 0 <= b < 256

  type Bytes = seq<byte>

  function Concat(pieces: seq<Bytes>): Bytes {
    if pieces == [] then [] else pieces[0] + Concat(pieces[1..])
  }

  function Keep(pieces: seq<Bytes>, drop: Bytes -> bool): seq<Bytes> {
    if pieces == [] then []
    else if drop(pieces[0]) then Keep(pieces[1..], drop)
    else [pieces[0]] + Keep(pieces[1..], drop)
  }

  lemma {:induction false} KeepOnlyKeeps(pieces: seq<Bytes>, drop: Bytes -> bool)
    ensures forall k :: 0 <= k < |Keep(pieces, drop)| ==>
      !drop(Keep(pieces, drop)[k]) && Keep(pieces, drop)[k] in pieces
    ensures |Concat(Keep(pieces, drop))| <= |Concat(pieces)|
  {
    if pieces != [] { KeepOnlyKeeps(pieces[1..], drop); }
  }

  lemma {:induction false} KeepNothingToDrop(pieces: seq<Bytes>, drop: Bytes -> bool)
    requires forall k :: 0 <= k < |pieces| ==> !drop(pieces[k])
    ensures Keep(pieces, drop) == pieces
  {
    if pieces != [] { KeepNothingToDrop(pieces[1..], drop); }
  }

  // ----- JPEG -----

  const EXIF_SIGNATURE: Bytes := [0x45, 0x78, 0x69, 0x66, 0, 0]

  predicate Standalone(marker: byte) {
    marker == 0x01 || 0xD0 <= marker <= 0xD7
  }

  function Uint16(data: Bytes): nat
    requires |data| == 2
  {
    256 * (data[0] as int) + (data[1] as int)
  }

  /** A segment as the walker delimits it: a marker other than EOI and SOS, alone or with its length and payload. */
  predicate JpegSegment(s: Bytes) {
    && |s| >= 2 && s[0] == 0xFF && s[1] != 0xD9 && s[1] != 0xDA
    && (if Standalone(s[1]) then |s| == 2 else |s| >= 4 && |s| == 2 + Uint16(s[2..4]))
  }

  /** What ends the walk: SOS and all that follows it, or EOI and all that follows it. */
  predicate JpegTail(t: Bytes) {
    |t| >= 2 && t[0] == 0xFF && (t[1] == 0xD9 || t[1] == 0xDA)
  }

  predicate ExifApp1(s: Bytes) {
    |s| >= 10 && s[1] == 0xE1 && s[4..10] == EXIF_SIGNATURE
  }

  /** A file the walker gets through: SOI, segments, tail. */
  datatype Jpeg = Jpeg(segments: seq<Bytes>, tail: Bytes) {
    predicate WellFormed() {
      (forall k :: 0 <= k < |segments| ==> JpegSegment(segments[k])) && JpegTail(tail)
    }

    function Body(): Bytes {
      Concat(segments) + tail
    }
  }

  const SOI: Bytes := [0xFF, 0xD8]

  /** data is a JPEG the walker understands, in these pieces. */
  ghost predicate IsJpeg(data: Bytes, j: Jpeg) {
    j.WellFormed() && data == SOI + j.Body()
  }

  function Push(piece: Bytes, rest: Option<Jpeg>): Option<Jpeg> {
    if rest.None? then None else Some(rest.value.(segments := [piece] + rest.value.segments))
  }

  /** The length of the segment b starts with, if the walker can get past it. */
  function SegmentLength(b: Bytes): (n: Option<nat>)
    requires |b| >= 2
    ensures n.Some? ==> 2 <= n.value <= |b|
  {
    if Standalone(b[1]) then Some(2)
    else if |b| < 4 || Uint16(b[2..4]) < 2 || 2 + Uint16(b[2..4]) > |b| then None
    else Some(2 + Uint16(b[2..4]))
  }

  /** The walk from one marker on. */
  function ParseJpeg(b: Bytes): Option<Jpeg>
    decreases |b|
  {
    if |b| < 2 || b[0] != 0xFF then None
    else if JpegTail(b) then Some(Jpeg([], b))
    else if SegmentLength(b).None? then None
    else Push(b[..SegmentLength(b).value], ParseJpeg(b[SegmentLength(b).value..]))
  }

  lemma {:induction false} ParseJpegSound(b: Bytes)
    requires ParseJpeg(b).Some?
    ensures ParseJpeg(b).value.WellFormed() && ParseJpeg(b).value.Body() == b
    decreases |b|
  {
    hide Uint16, Standalone;
    if !JpegTail(b) {
      var n := SegmentLength(b).value;
      ParseJpegSound(b[n..]);
      assert !Standalone(b[1]) ==> b[..n][2..4] == b[2..4];
      assert JpegSegment(b[..n]);
      assert b == b[..n] + b[n..];
    }
  }

  /** A segment in front is read off whole. */
  lemma ParseJpegSegment(s: Bytes, rest: Bytes)
    requires JpegSegment(s)
    ensures ParseJpeg(s + rest) == Push(s, ParseJpeg(rest))
  {
    var b := s + rest;
    assert b[..|s|] == s && b[|s|..] == rest;
    if !Standalone(s[1]) { assert b[2..4] == s[2..4]; }
  }

  lemma {:induction false} ParseJpegComplete(j: Jpeg)
    requires j.WellFormed()
    ensures ParseJpeg(j.Body()) == Some(j)
    decreases |j.segments|
  {
    if j.segments == [] {
      assert j.Body() == j.tail;
    } else {
      var rest := Jpeg(j.segments[1..], j.tail);
      assert j.Body() == j.segments[0] + rest.Body();
      ParseJpegSegment(j.segments[0], rest.Body());
      ParseJpegComplete(rest);
      assert j.segments == [j.segments[0]] + rest.segments;
    }
  }

  /** The pieces are determined by the bytes. */
  lemma JpegIsUnique(data: Bytes, i: Jpeg, j: Jpeg)
    requires IsJpeg(data, i) && IsJpeg(data, j)
    ensures i == j
  {
    assert data[2..] == i.Body() == j.Body();
    ParseJpegComplete(i);
    ParseJpegComplete(j);
  }

  lemma ParsedIsJpeg(data: Bytes, j: Jpeg)
    ensures IsJpeg(data, j) <==> |data| >= 4 && data[..2] == SOI && ParseJpeg(data[2..]) == Some(j)
  {
    if IsJpeg(data, j) {
      assert data[2..] == j.Body();
      ParseJpegComplete(j);
    }
    if |data| >= 4 && data[..2] == SOI && ParseJpeg(data[2..]) == Some(j) {
      ParseJpegSound(data[2..]);
      assert data == data[..2] + data[2..];
    }
  }

  /** The file the answer is, when the input is a JPEG: the kept segments, and the tail cut off after EOI. */
  function StrippedJpeg(j: Jpeg): Jpeg {
    Jpeg(Keep(j.segments, ExifApp1), if |j.tail| >= 2 && j.tail[1] == 0xD9 then j.tail[..2] else j.tail)
  }

  /** What the walk answers for data. */
  function JpegAnswer(data: Bytes): Bytes {
    if |data| < 4 || data[..2] != SOI then data
    else match ParseJpeg(data[2..])
      case None => data
      case Some(j) => SOI + StrippedJpeg(j).Body()
  }

  /** The rest of the loop, from pos with out already collected. */
  function WalkJpeg(data: Bytes, pos: nat, out: Bytes): Bytes
    requires pos <= |data|
    decreases |data| - pos
  {
    if pos + 2 > |data| || data[pos] != 0xFF then data
    else if data[pos + 1] == 0xD9 then out + data[pos..pos + 2]
    else if data[pos + 1] == 0xDA then out + data[pos..]
    else match SegmentLength(data[pos..])
      case None => data
      case Some(n) =>
        var segment := data[pos..pos + n];
        WalkJpeg(data, pos + n, if ExifApp1(segment) then out else out + segment)
  }

  lemma WalkStandalone(data: Bytes, pos: nat, out: Bytes)
    requires pos + 2 <= |data| && data[pos] == 0xFF && Standalone(data[pos + 1])
    ensures WalkJpeg(data, pos, out) == WalkJpeg(data, pos + 2, out + data[pos..pos + 2])
  {
    hide Uint16;
    assert !ExifApp1(data[pos..pos + 2]);
  }

  function Collected(data: Bytes, out: Bytes, ahead: Option<Jpeg>): Bytes {
    match ahead
    case None => data
    case Some(j) => out + StrippedJpeg(j).Body()
  }

  /** What the loop collects is the kept segments in front of the tail, if it gets that far. */
  lemma {:induction false} WalkJpegMeans(data: Bytes, pos: nat, out: Bytes)
    requires pos <= |data|
    ensures WalkJpeg(data, pos, out) == Collected(data, out, ParseJpeg(data[pos..]))
    decreases |data| - pos
  {
    hide ExifApp1, StrippedJpeg, Uint16, Standalone, SegmentLength;
    var b := data[pos..];
    if |b| < 2 || b[0] != 0xFF {
    } else if JpegTail(b) {
      assert b[..2] == data[pos..pos + 2];
      WalkJpegTail(b);
    } else if SegmentLength(b).Some? {
      var n := SegmentLength(b).value;
      var piece := data[pos..pos + n];
      Slices(data, pos, n);
      var next := if ExifApp1(piece) then out else out + piece;
      WalkJpegMeans(data, pos + n, next);
      WalkJpegPush(data, out, piece, ParseJpeg(b[n..]));
      assert WalkJpeg(data, pos, out) == WalkJpeg(data, pos + n, next) by { hide ParseJpeg, Collected; }
      assert ParseJpeg(b) == Push(piece, ParseJpeg(b[n..])) by { hide WalkJpeg, Collected; }
    }
  }

  lemma Slices(data: Bytes, pos: nat, n: nat)
    requires pos + n <= |data|
    ensures data[pos..][..n] == data[pos..pos + n] && data[pos..][n..] == data[pos + n..]
  {
  }

  lemma WalkJpegPush(data: Bytes, out: Bytes, piece: Bytes, ahead: Option<Jpeg>)
    ensures Collected(data, out, Push(piece, ahead)) ==
      Collected(data, if ExifApp1(piece) then out else out + piece, ahead)
  {
    if ahead.Some? {
      var segments := ahead.value.segments;
      assert ([piece] + segments)[1..] == segments;
      var kept := Keep(segments, ExifApp1);
      assert ([piece] + kept)[1..] == kept;
    }
  }

  lemma WalkJpegTail(b: Bytes)
    requires JpegTail(b)
    ensures StrippedJpeg(Jpeg([], b)).Body() == if b[1] == 0xD9 then b[..2] else b
  {
  }

  /** The part of the loop body that reads a segment with a length field; [] when it is cut short. */
  method ReadSegment(data: Bytes, pos: nat) returns (segment: Bytes, isExifApp1: bool)
    requires pos + 2 <= |data| && !Standalone(data[pos + 1])
    ensures SegmentLength(data[pos..]).None? ==> segment == []
    ensures SegmentLength(data[pos..]).Some? ==>
      segment == data[pos..pos + SegmentLength(data[pos..]).value] && isExifApp1 == ExifApp1(segment)
  {
    if pos + 4 > |data| { return [], false; }
    assert data[pos..][2..4] == data[pos + 2..pos + 4];
    var segmentLen := Uint16(data[pos + 2..pos + 4]);
    if segmentLen < 2 || pos + 2 + segmentLen > |data| { return [], false; }
    segment := data[pos..pos + 2 + segmentLen];
    isExifApp1 := data[pos + 1] == 0xE1 && segmentLen >= 8 && segment[4..10] == EXIF_SIGNATURE;
  }

  /** stripJPEGExif. */
  method StripJPEGExif(data: Bytes) returns (out: Bytes)
    ensures out == JpegAnswer(data)
  {
    hide JpegAnswer, ExifApp1, SegmentLength, Standalone;
    JpegAnswerIsWalk(data);
    if |data| < 4 || data[0] != 0xFF || data[1] != 0xD8 { return data; }
    out := [data[0], data[1]];
    var pos := 2;
    while true
      invariant 2 <= pos <= |data|
      invariant WalkJpeg(data, pos, out) == JpegAnswer(data)
      decreases |data| - pos
    {
      if pos + 2 > |data| || data[pos] != 0xFF { return data; }
      var marker := data[pos + 1];
      if marker == 0xD9 {
        assert data[pos..pos + 2] == [data[pos], data[pos + 1]];
        out := out + [data[pos], data[pos + 1]];
        return;
      }
      if marker == 0xDA {
        out := out + data[pos..];
        return;
      }
      if Standalone(marker) {
        assert data[pos..pos + 2] == [data[pos], data[pos + 1]];
        WalkStandalone(data, pos, out);
        out := out + [data[pos], data[pos + 1]];
        pos := pos + 2;
        continue;
      }
      var segment, isExifApp1 := ReadSegment(data, pos);
      if segment == [] { return data; }
      if !isExifApp1 { out := out + segment; }
      pos := pos + |segment|;
    }
  }

  lemma JpegAnswerIsWalk(data: Bytes)
    ensures JpegAnswer(data) ==
      if |data| < 4 || data[0] != 0xFF || data[1] != 0xD8 then data else WalkJpeg(data, 2, [data[0], data[1]])
  {
    hide WalkJpeg, ParseJpeg, StrippedJpeg;
    assert |data| >= 2 ==> data[..2] == [data[0], data[1]];
    if |data| >= 4 && data[0] == 0xFF && data[1] == 0xD8 {
      assert data[..2] == SOI == [data[0], data[1]];
      WalkJpegMeans(data, 2, SOI);
    }
  }

  lemma JpegAnswerOn(data: Bytes, j: Jpeg)
    requires IsJpeg(data, j)
    ensures JpegAnswer(data) == SOI + StrippedJpeg(j).Body() && IsJpeg(JpegAnswer(data), StrippedJpeg(j))
    ensures |JpegAnswer(data)| <= |data|
  {
    ParsedIsJpeg(data, j);
    KeepOnlyKeeps(j.segments, ExifApp1);
  }

  lemma JpegAnswerOff(data: Bytes)
    requires forall j :: !IsJpeg(data, j)
    ensures JpegAnswer(data) == data
  {
    if |data| >= 4 && data[..2] == SOI && ParseJpeg(data[2..]).Some? {
      ParsedIsJpeg(data, ParseJpeg(data[2..]).value);
      assert false;
    }
  }

  /** The answer on any input: for a JPEG, SOI, every segment but the Exif ones byte for byte and in order, then
      from SOS on everything and at EOI just the marker; for anything else, the input. */
  lemma JpegAnswerMeaning(data: Bytes)
    ensures forall j :: IsJpeg(data, j) ==>
      JpegAnswer(data) == SOI + StrippedJpeg(j).Body() && IsJpeg(JpegAnswer(data), StrippedJpeg(j))
    ensures (forall j :: !IsJpeg(data, j)) ==> JpegAnswer(data) == data
    ensures |JpegAnswer(data)| <= |data|
  {
    forall j | IsJpeg(data, j)
      ensures JpegAnswer(data) == SOI + StrippedJpeg(j).Body() && IsJpeg(JpegAnswer(data), StrippedJpeg(j))
      ensures |JpegAnswer(data)| <= |data|
    {
      JpegAnswerOn(data, j);
    }
    if forall j :: !IsJpeg(data, j) { JpegAnswerOff(data); }
  }

  /** Walking the answer again finds no Exif segment before its SOS or EOI. */
  lemma NoExifLeft(data: Bytes, j: Jpeg)
    requires IsJpeg(JpegAnswer(data), j)
    ensures forall k :: 0 <= k < |j.segments| ==> !ExifApp1(j.segments[k])
  {
    if i :| IsJpeg(data, i) {
      JpegAnswerOn(data, i);
      JpegIsUnique(JpegAnswer(data), j, StrippedJpeg(i));
      KeepOnlyKeeps(i.segments, ExifApp1);
    } else {
      JpegAnswerOff(data);
    }
  }

  lemma NothingToStrip(j: Jpeg)
    requires j.WellFormed() && (forall k :: 0 <= k < |j.segments| ==> !ExifApp1(j.segments[k]))
    requires (j.tail[1] == 0xD9 ==> |j.tail| == 2)
    ensures StrippedJpeg(j) == j
  {
    KeepNothingToDrop(j.segments, ExifApp1);
    assert j.tail[1] == 0xD9 ==> j.tail[..2] == j.tail;
  }

  /** Stripping twice is stripping once. */
  lemma JpegIdempotent(data: Bytes)
    ensures JpegAnswer(JpegAnswer(data)) == JpegAnswer(data)
  {
    if i :| IsJpeg(data, i) {
      JpegAnswerOn(data, i);
      var j := StrippedJpeg(i);
      JpegAnswerOn(JpegAnswer(data), j);
      NoExifLeft(data, j);
      NothingToStrip(j);
    } else {
      JpegAnswerOff(data);
    }
  }

  // ----- PNG -----

  const PNG_SIGNATURE: Bytes := [0x89, 0x50, 0x4E, 0x47, 0x0D, 0x0A, 0x1A, 0x0A]
  const EXIF_TYPE: Bytes := [0x65, 0x58, 0x49, 0x66]
  const IEND_TYPE: Bytes := [0x49, 0x45, 0x4E, 0x44]

  function Uint32(data: Bytes): nat
    requires |data| == 4
  {
    0x1000000 * (data[0] as int) + 0x10000 * (data[1] as int) + 0x100 * (data[2] as int) + (data[3] as int)
  }

  /** Length, type, that many bytes of data, CRC. */
  predicate PngChunk(c: Bytes) {
    |c| >= 12 && |c| == 12 + Uint32(c[..4])
  }

  predicate OfType(c: Bytes, t: Bytes) {
    |c| >= 8 && c[4..8] == t
  }

  predicate ExifChunk(c: Bytes) {
    OfType(c, EXIF_TYPE)
  }

  /** Chunks, and whatever follows IEND; without an IEND nothing follows. */
  datatype Png = Png(chunks: seq<Bytes>, rest: Bytes) {
    predicate WellFormed() {
      && (forall k :: 0 <= k < |chunks| ==> PngChunk(chunks[k]))
      && IendIsLast(chunks)
      && (rest != [] ==> EndsInIend(chunks))
    }

    function Body(): Bytes {
      Concat(chunks) + rest
    }
  }

  ghost predicate IsPng(data: Bytes, p: Png) {
    p.WellFormed() && data == PNG_SIGNATURE + p.Body()
  }

  function StrippedPng(p: Png): Png {
    p.(chunks := Keep(p.chunks, ExifChunk))
  }

  /** The length of the chunk b starts with, if it is not cut short. */
  function ChunkLength(b: Bytes): (n: Option<nat>)
    ensures n.Some? ==> 12 <= n.value <= |b|
  {
    if |b| < 12 || 12 + Uint32(b[..4]) > |b| then None else Some(12 + Uint32(b[..4]))
  }

  function PushChunk(c: Bytes, ahead: Option<Png>): Option<Png> {
    if ahead.None? then None else Some(ahead.value.(chunks := [c] + ahead.value.chunks))
  }

  function ParsePng(b: Bytes): Option<Png>
    decreases |b|
  {
    if b == [] then Some(Png([], []))
    else if ChunkLength(b).None? then None
    else
      var n := ChunkLength(b).value;
      if OfType(b[..n], IEND_TYPE) then Some(Png([b[..n]], b[n..])) else PushChunk(b[..n], ParsePng(b[n..]))
  }

  lemma FirstChunkIsOne(b: Bytes)
    requires ChunkLength(b).Some?
    ensures PngChunk(b[..ChunkLength(b).value])
  {
    hide Uint32;
    assert b[..ChunkLength(b).value][..4] == b[..4];
  }

  lemma {:induction false} ParsePngSound(b: Bytes)
    requires ParsePng(b).Some?
    ensures ParsePng(b).value.WellFormed() && ParsePng(b).value.Body() == b
    decreases |b|
  {
    hide OfType, Uint32, PngChunk, ChunkLength;
    if b != [] {
      var n := ChunkLength(b).value;
      FirstChunkIsOne(b);
      assert b == b[..n] + b[n..];
      if OfType(b[..n], IEND_TYPE) {
        assert Concat([b[..n]]) == b[..n];
      } else {
        ParsePngSound(b[n..]);
      }
    }
  }

  lemma ParsePngChunk(c: Bytes, rest: Bytes)
    requires PngChunk(c)
    ensures ParsePng(c + rest) == if OfType(c, IEND_TYPE) then Some(Png([c], rest)) else PushChunk(c, ParsePng(rest))
  {
    var b := c + rest;
    assert b[..4] == c[..4] && b[..|c|] == c && b[|c|..] == rest;
  }

  lemma {:induction false} ParsePngComplete(p: Png)
    requires p.WellFormed()
    ensures ParsePng(p.Body()) == Some(p)
    decreases |p.chunks|
  {
    hide OfType, Uint32, ChunkLength;
    if p.chunks != [] {
      var c, rest := p.chunks[0], Png(p.chunks[1..], p.rest);
      assert p.Body() == c + rest.Body();
      ParsePngChunk(c, rest.Body()) by { assert PngChunk(c); }
      if OfType(c, IEND_TYPE) {
        assert p.chunks == [c] && rest.Body() == p.rest;
      } else {
        ParsePngComplete(rest);
        assert p.chunks == [c] + rest.chunks;
      }
    }
  }

  lemma ParsedIsPng(data: Bytes, p: Png)
    ensures IsPng(data, p) <==> |data| >= 8 && data[..8] == PNG_SIGNATURE && ParsePng(data[8..]) == Some(p)
  {
    if IsPng(data, p) {
      assert data[8..] == p.Body();
      ParsePngComplete(p);
    }
    if |data| >= 8 && data[..8] == PNG_SIGNATURE && ParsePng(data[8..]) == Some(p) {
      ParsePngSound(data[8..]);
      assert data == data[..8] + data[8..];
    }
  }

  function PngCollected(data: Bytes, out: Bytes, ahead: Option<Png>): Bytes {
    match ahead
    case None => data
    case Some(p) => out + StrippedPng(p).Body()
  }

  /** What the walk answers for data. */
  function PngAnswer(data: Bytes): Bytes {
    if |data| < 8 || data[..8] != PNG_SIGNATURE then data else PngCollected(data, PNG_SIGNATURE, ParsePng(data[8..]))
  }

  /** The rest of the loop, from pos with out already collected. */
  function WalkPng(data: Bytes, pos: nat, out: Bytes): Bytes
    requires pos <= |data|
    decreases |data| - pos
  {
    if pos == |data| then out
    else match ChunkLength(data[pos..])
      case None => data
      case Some(n) =>
        var chunk := data[pos..pos + n];
        var next := if ExifChunk(chunk) then out else out + chunk;
        if OfType(chunk, IEND_TYPE) then next + data[pos + n..] else WalkPng(data, pos + n, next)
  }

  lemma PngCollectedPush(data: Bytes, out: Bytes, c: Bytes, ahead: Option<Png>)
    ensures PngCollected(data, out, PushChunk(c, ahead)) ==
      PngCollected(data, if ExifChunk(c) then out else out + c, ahead)
  {
    if ahead.Some? {
      var chunks := ahead.value.chunks;
      assert ([c] + chunks)[1..] == chunks;
      var kept := Keep(chunks, ExifChunk);
      assert ([c] + kept)[1..] == kept;
    }
  }

  lemma PngCollectedLast(data: Bytes, out: Bytes, c: Bytes, rest: Bytes)
    requires OfType(c, IEND_TYPE)
    ensures !ExifChunk(c) && PngCollected(data, out, Some(Png([c], rest))) == out + c + rest
  {
    assert c[4..8][0] == 0x49 && !ExifChunk(c);
    assert Keep([c], ExifChunk) == [c] && Concat([c]) == c;
  }

  lemma PngCollectedNothing(data: Bytes, out: Bytes)
    ensures PngCollected(data, out, Some(Png([], []))) == out
  {
  }

  lemma {:induction false} WalkPngMeans(data: Bytes, pos: nat, out: Bytes)
    requires pos <= |data|
    ensures WalkPng(data, pos, out) == PngCollected(data, out, ParsePng(data[pos..]))
    decreases |data| - pos
  {
    hide ExifChunk, OfType, StrippedPng, Uint32, ChunkLength;
    var b := data[pos..];
    if b == [] {
      PngCollectedNothing(data, out);
    } else if ChunkLength(b).Some? {
      var n := ChunkLength(b).value;
      var chunk := data[pos..pos + n];
      Slices(data, pos, n);
      if OfType(chunk, IEND_TYPE) {
        PngCollectedLast(data, out, chunk, b[n..]);
      } else {
        var next := if ExifChunk(chunk) then out else out + chunk;
        WalkPngMeans(data, pos + n, next);
        PngCollectedPush(data, out, chunk, ParsePng(b[n..]));
        assert WalkPng(data, pos, out) == WalkPng(data, pos + n, next) by { hide ParsePng, PngCollected; }
        assert ParsePng(b) == PushChunk(chunk, ParsePng(b[n..])) by { hide WalkPng, PngCollected; }
      }
    }
  }

  /** The part of the loop body that reads one chunk; [] when it is cut short. */
  method ReadChunk(data: Bytes, pos: nat) returns (chunk: Bytes, chunkType: Bytes)
    requires pos <= |data|
    ensures ChunkLength(data[pos..]).None? ==> chunk == []
    ensures ChunkLength(data[pos..]).Some? ==>
      chunk == data[pos..pos + ChunkLength(data[pos..]).value] && |chunk| >= 12 && chunkType == chunk[4..8]
  {
    hide Uint32;
    if pos + 12 > |data| { return [], []; }
    assert data[pos..][..4] == data[pos..pos + 4];
    var chunkLen := Uint32(data[pos..pos + 4]);
    if pos + 12 + chunkLen > |data| { return [], []; }
    chunk := data[pos..pos + 12 + chunkLen];
    chunkType := chunk[4..8];
  }

  lemma PngAnswerIsWalk(data: Bytes)
    ensures PngAnswer(data) ==
      if |data| < 8 || data[..8] != PNG_SIGNATURE then data else WalkPng(data, 8, PNG_SIGNATURE)
  {
    hide WalkPng, ParsePng, StrippedPng;
    if |data| >= 8 { WalkPngMeans(data, 8, PNG_SIGNATURE); }
  }

  /** stripPNGExif. */
  method StripPNGExif(data: Bytes) returns (out: Bytes)
    ensures out == PngAnswer(data)
  {
    hide PngAnswer, ChunkLength;
    PngAnswerIsWalk(data);
    if |data| < |PNG_SIGNATURE| || data[..|PNG_SIGNATURE|] != PNG_SIGNATURE { return data; }
    out := PNG_SIGNATURE;
    var pos := |PNG_SIGNATURE|;
    while true
      invariant 8 <= pos <= |data|
      invariant WalkPng(data, pos, out) == PngAnswer(data)
      decreases |data| - pos
    {
      if pos == |data| { return; }
      var chunk, chunkType := ReadChunk(data, pos);
      if chunk == [] { return data; }
      if chunkType != EXIF_TYPE { out := out + chunk; }
      pos := pos + |chunk|;
      if chunkType == IEND_TYPE {
        assert pos == |data| ==> out + data[pos..] == out;
        if pos < |data| { out := out + data[pos..]; }
        return;
      }
    }
  }

  /** Only the last chunk, if any, is an IEND. */
  predicate IendIsLast(chunks: seq<Bytes>) {
    forall k :: 0 <= k < |chunks| - 1 ==> !OfType(chunks[k], IEND_TYPE)
  }

  predicate EndsInIend(chunks: seq<Bytes>) {
    chunks != [] && OfType(chunks[|chunks| - 1], IEND_TYPE)
  }

  lemma {:induction false} KeepKeepsIend(chunks: seq<Bytes>)
    requires IendIsLast(chunks)
    ensures IendIsLast(Keep(chunks, ExifChunk))
    ensures EndsInIend(chunks) ==> EndsInIend(Keep(chunks, ExifChunk))
  {
    if |chunks| == 1 {
      if OfType(chunks[0], IEND_TYPE) { assert chunks[0][4..8][0] == 0x49; }
    } else if chunks != [] {
      KeepKeepsIend(chunks[1..]);
      assert chunks[1..][|chunks| - 2] == chunks[|chunks| - 1];
      var rest := Keep(chunks[1..], ExifChunk);
      var kept := [chunks[0]] + rest;
      forall k | 0 <= k < |kept| - 1 ensures !OfType(kept[k], IEND_TYPE) {
        if k == 0 {
          assert kept[0] == chunks[0];
        } else {
          var j := k - 1;
          assert !OfType(rest[j], IEND_TYPE) && kept[k] == rest[j];
        }
      }
      if EndsInIend(rest) { assert kept[|kept| - 1] == rest[|rest| - 1]; }
    }
  }

  lemma PngAnswerOn(data: Bytes, p: Png)
    requires IsPng(data, p)
    ensures PngAnswer(data) == PNG_SIGNATURE + StrippedPng(p).Body() && IsPng(PngAnswer(data), StrippedPng(p))
    ensures |PngAnswer(data)| <= |data|
  {
    ParsedIsPng(data, p);
    KeepOnlyKeeps(p.chunks, ExifChunk);
    KeepKeepsIend(p.chunks);
  }

  /** The answer on any input: for a PNG, the signature, every chunk but the eXIf ones byte for byte and in order,
      and whatever follows IEND; for anything else, the input.  No eXIf chunk is left, and a second strip changes
      nothing. */
  lemma PngAnswerMeaning(data: Bytes)
    ensures forall p :: IsPng(data, p) ==> PngAnswer(data) == PNG_SIGNATURE + StrippedPng(p).Body()
    ensures (forall p :: !IsPng(data, p)) ==> PngAnswer(data) == data
    ensures forall q, k :: IsPng(PngAnswer(data), q) && 0 <= k < |q.chunks| ==> !ExifChunk(q.chunks[k])
    ensures PngAnswer(PngAnswer(data)) == PngAnswer(data)
  {
    forall p | IsPng(data, p) ensures PngAnswer(data) == PNG_SIGNATURE + StrippedPng(p).Body() { PngAnswerOn(data, p); }
    if p :| IsPng(data, p) {
      PngAnswerOn(data, p);
      var out, q := PngAnswer(data), StrippedPng(p);
      PngAnswerOn(out, q);
      ParsedIsPng(out, q);
      KeepOnlyKeeps(p.chunks, ExifChunk);
      KeepNothingToDrop(q.chunks, ExifChunk);
      forall r | IsPng(out, r) ensures r == q { ParsedIsPng(out, r); }
    } else if |data| >= 8 && data[..8] == PNG_SIGNATURE && ParsePng(data[8..]).Some? {
      ParsedIsPng(data, ParsePng(data[8..]).value);
      assert false;
    }
  }

  /** StripImageMetadata: only the two content types are touched. */
  method StripImageMetadata(data: Bytes, contentType: string) returns (out: Bytes)
    ensures out == if contentType == "image/jpeg" then JpegAnswer(data)
                   else if contentType == "image/png" then PngAnswer(data)
                   else data
  {
    if contentType == "image/jpeg" {
      out := StripJPEGExif(data);
    } else if contentType == "image/png" {
      out := StripPNGExif(data);
    } else {
      out := data;
    }
  }

  // ----- Files, byte by byte -----

  /** A segment with a length field: its two bytes, most significant first, count themselves and the payload. */
  function Segment(marker: byte, payload: Bytes): Bytes
    requires |payload| + 2 < 0x10000
  {
    var n := |payload| + 2;
    [0xFF, marker, (n / 256) as byte, (n % 256) as byte] + payload
  }

  lemma SegmentIsOne(marker: byte, payload: Bytes)
    requires |payload| + 2 < 0x10000 && marker != 0xD9 && marker != 0xDA && !Standalone(marker)
    ensures JpegSegment(Segment(marker, payload))
    ensures ExifApp1(Segment(marker, payload)) <==>
      marker == 0xE1 && |payload| >= 6 && payload[..6] == [0x45, 0x78, 0x69, 0x66, 0x00, 0x00]
  {
    var s, n := Segment(marker, payload), |payload| + 2;
    assert s[2..4] == [(n / 256) as byte, (n % 256) as byte];
    assert Uint16(s[2..4]) == n;
    if |payload| >= 6 { assert s[4..10] == payload[..6]; }
  }

  /** A file of one segment and a scan: an APP1 segment that begins with "Exif" and two zero bytes goes, any other
      segment stays, and the scan is copied to its end. */
  lemma OneSegmentJpeg(marker: byte, payload: Bytes, scan: Bytes)
    requires |payload| + 2 < 0x10000 && marker !in [0x01, 0xD9, 0xDA] && !(0xD0 <= marker <= 0xD7)
    ensures var segment := Segment(marker, payload);
      JpegAnswer([0xFF, 0xD8] + segment + ([0xFF, 0xDA] + scan)) ==
        if marker == 0xE1 && |payload| >= 6 && payload[..6] == [0x45, 0x78, 0x69, 0x66, 0x00, 0x00]
        then [0xFF, 0xD8] + ([0xFF, 0xDA] + scan)
        else [0xFF, 0xD8] + segment + ([0xFF, 0xDA] + scan)
  {
    hide ExifApp1, Uint16, JpegAnswer;
    var s, tail := Segment(marker, payload), [0xFF, 0xDA] + scan;
    SegmentIsOne(marker, payload);
    OnePiece(s, tail);
  }

  lemma OnePiece(s: Bytes, tail: Bytes)
    requires JpegSegment(s) && JpegTail(tail) && tail[1] == 0xDA
    ensures JpegAnswer([0xFF, 0xD8] + s + tail) == [0xFF, 0xD8] + (if ExifApp1(s) then tail else s + tail)
  {
    hide ExifApp1, Uint16, JpegAnswer;
    var j := Jpeg([s], tail);
    assert Concat([s]) == s;
    assert [0xFF, 0xD8] + s + tail == SOI + j.Body();
    JpegAnswerOn([0xFF, 0xD8] + s + tail, j);
    assert Keep([s], ExifApp1) == if ExifApp1(s) then [] else [s];
  }

  /** The markers without a length field are copied, and at EOI the file ends. */
  lemma MarkersAreCopied(marker: byte, after: Bytes)
    requires marker == 0x01 || 0xD0 <= marker <= 0xD7
    ensures JpegAnswer([0xFF, 0xD8, 0xFF, marker, 0xFF, 0xD9] + after) == [0xFF, 0xD8, 0xFF, marker, 0xFF, 0xD9]
  {
    hide JpegAnswer;
    var s: Bytes, tail := [0xFF, marker], [0xFF, 0xD9] + after;
    var j, data := Jpeg([s], tail), [0xFF, 0xD8, 0xFF, marker, 0xFF, 0xD9] + after;
    assert s[0] == 0xFF && s[1] == marker && tail[0] == 0xFF && tail[1] == 0xD9;
    assert Concat([s]) == s;
    assert data == SOI + j.Body();
    JpegAnswerOn(data, j);
    assert Keep([s], ExifApp1) == [s] && tail[..2] == [0xFF, 0xD9];
    assert StrippedJpeg(j).Body() == [0xFF, marker] + [0xFF, 0xD9];
  }

  /** What is no JPEG, or breaks off, comes back as it is. */
  lemma BrokenJpeg(data: Bytes)
    requires |data| < 4 || data[0] != 0xFF || data[1] != 0xD8 || data[2] != 0xFF
    ensures JpegAnswer(data) == data
  {
    hide ParseJpeg;
    JpegAnswerIsWalk(data);
  }

  /** Length, type, data, and four bytes of CRC; the length is most significant byte first. */
  function Chunk(kind: Bytes, content: Bytes, crc: Bytes): Bytes
    requires |content| < 0x1_0000_0000
  {
    var n := |content|;
    var (high, low) := (n / 256 / 256, n / 256);
    [(high / 256) as byte, (high % 256) as byte, (low % 256) as byte, (n % 256) as byte] + kind + content + crc
  }

  lemma ChunkIsOne(kind: Bytes, content: Bytes, crc: Bytes)
    requires |content| < 0x1_0000_0000 && |kind| == 4 && |crc| == 4
    ensures PngChunk(Chunk(kind, content, crc)) && Chunk(kind, content, crc)[4..8] == kind
  {
    hide Uint32;
    var n, c := |content|, Chunk(kind, content, crc);
    var high, low := n / 256 / 256, n / 256;
    var a, b, d, e := (high / 256) as byte, (high % 256) as byte, (low % 256) as byte, (n % 256) as byte;
    assert c[..4] == [a, b, d, e];
    FourBytes(n, low, high, a, b, d, e);
  }

  lemma FourBytes(n: nat, low: nat, high: nat, a: byte, b: byte, d: byte, e: byte)
    requires n == 256 * low + e as nat && low == 256 * high + d as nat && high == 256 * a as nat + b as nat
    ensures Uint32([a, b, d, e]) == n
  {
  }

  /** A file of two chunks: one of type eXIf goes, any other stays, and so does what follows IEND. */
  lemma TwoChunkPng(kind: Bytes, content: Bytes, crc: Bytes, endCrc: Bytes, after: Bytes)
    requires |content| < 0x1_0000_0000 && |kind| == 4 && |crc| == 4 && |endCrc| == 4
    requires kind != [0x49, 0x45, 0x4E, 0x44]
    ensures var signature := [0x89, 0x50, 0x4E, 0x47, 0x0D, 0x0A, 0x1A, 0x0A];
      var chunk, iend := Chunk(kind, content, crc), [0, 0, 0, 0, 0x49, 0x45, 0x4E, 0x44] + endCrc;
      PngAnswer(signature + chunk + iend + after) ==
        if kind == [0x65, 0x58, 0x49, 0x66] then signature + iend + after else signature + chunk + iend + after
  {
    hide PngAnswer, Uint32, Chunk;
    ChunkIsOne(kind, content, crc);
    var chunk, iend := Chunk(kind, content, crc), [0, 0, 0, 0, 0x49, 0x45, 0x4E, 0x44] + endCrc;
    IendIsOne(endCrc);
    TwoPieces(chunk, iend, after);
  }

  lemma IendIsOne(crc: Bytes)
    requires |crc| == 4
    ensures var iend := [0, 0, 0, 0, 0x49, 0x45, 0x4E, 0x44] + crc;
      PngChunk(iend) && OfType(iend, IEND_TYPE) && !ExifChunk(iend)
  {
    var iend: Bytes := [0, 0, 0, 0, 0x49, 0x45, 0x4E, 0x44] + crc;
    assert iend[..4] == [0, 0, 0, 0] && iend[4..8] == IEND_TYPE && IEND_TYPE[0] != EXIF_TYPE[0];
  }

  lemma TwoPieces(chunk: Bytes, iend: Bytes, after: Bytes)
    requires PngChunk(chunk) && !OfType(chunk, IEND_TYPE)
    requires PngChunk(iend) && OfType(iend, IEND_TYPE) && !ExifChunk(iend)
    ensures var signature := [0x89, 0x50, 0x4E, 0x47, 0x0D, 0x0A, 0x1A, 0x0A];
      PngAnswer(signature + chunk + iend + after) ==
        if ExifChunk(chunk) then signature + iend + after else signature + chunk + iend + after
  {
    hide PngAnswer, Uint32, OfType, ExifChunk;
    var p := Png([chunk, iend], after);
    assert [chunk, iend][1..] == [iend] && Concat([iend]) == iend;
    assert Concat([chunk, iend]) == chunk + Concat([iend]);
    var data: Bytes := [0x89, 0x50, 0x4E, 0x47, 0x0D, 0x0A, 0x1A, 0x0A] + chunk + iend + after;
    assert data == PNG_SIGNATURE + p.Body();
    PngAnswerOn(data, p);
    assert Keep([iend], ExifChunk) == [iend];
    assert Keep([chunk, iend], ExifChunk) == if ExifChunk(chunk) then [iend] else [chunk, iend];
  }
}
