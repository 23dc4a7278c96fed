/** Coordinates over CardDAV.  An ADR's GEO parameter cannot be encoded, so a GET moves it onto a standalone
    GEO property tagged with the ADR's PROP-ID, and a PUT takes GEO properties off the card again and sets
    them on the imported addresses. */
module GeoCoordinates {
  import opened Prelude

  /** An ADR field: its GEO parameter as decoded (split at commas) and its PROP-ID, "" when absent. */
  datatype Adr = Adr(geo: Option<seq<string>>, propId: string)

  /** A standalone GEO field. */
  datatype Geo = Geo(value: string, propId: string)

  datatype Address = Address(id: string, coordinates: string)

  /** contactmodel.ParseGeoURI's verdict on a string. */
  type Validity = string -> bool

  const SCHEME := "geo:"

  // ----- Normalising a coordinate -----

  /** strings.ReplaceAll(s, `\,`, ",") */
  function Unescape(s: string): (r: string)
    ensures |r| <= |s|
    ensures r == s || |r| < |s|
  {
    if s == "" then ""
    else if |s| >= 2 && s[0] == '\\' && s[1] == ',' then "," + Unescape(s[2..])
    else [s[0]] + Unescape(s[1..])
  }

  /** The escape the encoder puts in front of every comma. */
  function Escape(s: string): string {
    if s == "" then "" else (if s[0] == ',' then "\\," else [s[0]]) + Escape(s[1..])
  }

  predicate HasScheme(v: string) {
    |v| >= |SCHEME| && EqualFold(v[..|SCHEME|], SCHEME)
  }

  /** normalizeGeoCoordinate; "" for anything that is not a coordinate. */
  function Normalize(valid: Validity, v: string): string {
    var u := Unescape(TrimSpace(v));
    if u != "" && HasScheme(u) && valid(u) then u else ""
  }

  predicate HasEscapedComma(s: string) {
    exists i :: 0 <= i < |s| - 1 && s[i] == '\\' && s[i + 1] == ','
  }

  /** A coordinate that normalising leaves alone. */
  predicate Plain(valid: Validity, c: string) {
    Trimmed(c) && !HasEscapedComma(c) && HasScheme(c) && valid(c)
  }

  lemma {:induction false} UnescapePlain(s: string)
    ensures Unescape(s) == s <==> !HasEscapedComma(s)
  {
    if |s| >= 2 && s[0] == '\\' && s[1] == ',' {
      assert HasEscapedComma(s);
    } else if s != "" {
      UnescapePlain(s[1..]);
      assert s == [s[0]] + s[1..];
      if HasEscapedComma(s) {
        var i :| 0 <= i < |s| - 1 && s[i] == '\\' && s[i + 1] == ',';
        assert i >= 1 && s[1..][i - 1] == '\\' && s[1..][i] == ',';
      }
      if HasEscapedComma(s[1..]) {
        var i :| 0 <= i < |s| - 2 && s[1..][i] == '\\' && s[1..][i + 1] == ',';
        assert s[i + 1] == '\\' && s[i + 2] == ',';
      }
    }
  }

  /** Unescaping undoes the escape on every string. */
  lemma {:induction false} UnescapeUndoesEscape(s: string)
    ensures Unescape(Escape(s)) == s
  {
    if s != "" {
      UnescapeUndoesEscape(s[1..]);
      var tail := Escape(s[1..]);
      if s[0] == ',' {
        assert ("\\," + tail)[2..] == tail;
      } else {
        assert ([s[0]] + tail)[1..] == tail;
        assert s[0] == '\\' && tail != "" ==> tail[0] != ',';
      }
    }
  }

  lemma TrimSpaceShortens(s: string)
    ensures TrimSpace(s) == s || |TrimSpace(s)| < |s|
  {
  }

  /** Normalising keeps exactly the plain coordinates (and the empty one). */
  lemma NormalizeKeeps(valid: Validity, c: string)
    ensures Normalize(valid, c) == c <==> c == "" || Plain(valid, c)
  {
    hide TrimSpace, Unescape, HasScheme, HasEscapedComma, Trimmed;
    var t := TrimSpace(c);
    TrimSpaceShortens(c);
    TrimSpaceTrims(c);
    UnescapePlain(t);
    if Plain(valid, c) { TrimSpaceFixes(c); }
    if c == "" { EmptyIsNoCoordinate(valid); }
  }

  /** The scheme counts in any letter case, and is kept as it is spelled. */
  lemma AnySchemeCase(valid: Validity, v: string)
    requires Trimmed(v) && !HasEscapedComma(v) && valid(v)
    ensures |v| >= 4 && v[0] in "gG" && v[1] in "eE" && v[2] in "oO" && v[3] == ':' ==> Normalize(valid, v) == v
    ensures |v| < 4 || v[3] != ':' ==> Normalize(valid, v) == ""
  {
    hide HasEscapedComma, Unescape, TrimSpace;
    TrimSpaceFixes(v);
    UnescapePlain(v);
    assert SCHEME[0] == 'g' && SCHEME[1] == 'e' && SCHEME[2] == 'o' && SCHEME[3] == ':';
    if |v| >= 4 {
      var w := v[..4];
      assert w[0] == v[0] && w[1] == v[1] && w[2] == v[2] && w[3] == v[3];
      assert forall i :: 0 <= i < 4 ==> ToFold(w)[i] == FoldChar(w[i]) && ToFold(SCHEME)[i] == SCHEME[i];
      if v[3] != ':' { assert FoldChar(v[3]) != ':'; }
    }
  }

  lemma EmptyIsNoCoordinate(valid: Validity)
    ensures Normalize(valid, "") == ""
  {
  }

  /** What comes out of normalising goes through it again unchanged once the encoder has escaped its commas,
      and without the escape when it holds no escaped comma of its own. */
  lemma NormalizeAgain(valid: Validity, v: string)
    ensures Normalize(valid, Escape(Normalize(valid, v))) == Normalize(valid, v)
    ensures !HasEscapedComma(Normalize(valid, v)) ==> Normalize(valid, Normalize(valid, v)) == Normalize(valid, v)
  {
    var c := Normalize(valid, v);
    if c != "" {
      TrimSpaceTrims(v);
      UnescapeKeepsTrimmed(TrimSpace(v));
      EscapeKeepsTrimmed(c);
      TrimSpaceFixes(Escape(c));
      UnescapeUndoesEscape(c);
      NormalizeKeeps(valid, c);
    } else {
      assert TrimSpace("") == "";
    }
  }

  lemma {:induction false} LastUnescaped(s: string)
    requires s != ""
    ensures Unescape(s) != "" && Unescape(s)[|Unescape(s)| - 1] == s[|s| - 1]
  {
    if |s| >= 2 && s[0] == '\\' && s[1] == ',' {
      if |s| > 2 {
        LastUnescaped(s[2..]);
      } else {
        assert s[2..] == "";
      }
    } else if |s| > 1 {
      LastUnescaped(s[1..]);
    } else {
      assert s[1..] == "";
    }
  }

  lemma {:induction false} LastEscaped(s: string)
    requires s != ""
    ensures Escape(s) != "" && Escape(s)[|Escape(s)| - 1] == s[|s| - 1]
  {
    if |s| > 1 { LastEscaped(s[1..]); }
  }

  lemma UnescapeKeepsTrimmed(s: string)
    requires Trimmed(s)
    ensures Trimmed(Unescape(s))
  {
    if s != "" { LastUnescaped(s); }
  }

  lemma EscapeKeepsTrimmed(s: string)
    requires Trimmed(s)
    ensures Trimmed(Escape(s))
  {
    if s != "" { LastEscaped(s); }
  }

  // ----- The three functions, on values -----

  /** The coordinate in an ADR's GEO parameter, "" when there is none. */
  function ParamCoord(valid: Validity, a: Adr): string {
    if a.geo.None? then "" else Normalize(valid, Join(a.geo.value, ","))
  }

  /** The GEO properties a GET adds for these ADRs. */
  function Moved(valid: Validity, adrs: seq<Adr>): seq<Geo> {
    if adrs == [] then []
    else if ParamCoord(valid, adrs[0]) == "" then Moved(valid, adrs[1..])
    else [Geo(ParamCoord(valid, adrs[0]), adrs[0].propId)] + Moved(valid, adrs[1..])
  }

  /** A parameter with an empty value list is left in place. */
  function Cleared(a: Adr): Adr {
    if a.geo.Some? && a.geo.value != [] then a.(geo := None) else a
  }

  /** On a GET the parameter of an ADR goes if it has a value, coordinate or not, and the rest of the ADR stays. */
  lemma WhatIsCleared(values: seq<string>, id: string)
    ensures Cleared(Adr(Some(values), id)) == if values == [] then Adr(Some([]), id) else Adr(None, id)
    ensures Cleared(Adr(None, id)) == Adr(None, id)
  {
  }

  function Coord(valid: Validity, g: Geo): string {
    Normalize(valid, g.value)
  }

  /** The GEO properties that hold a coordinate. */
  function Entries(valid: Validity, geos: seq<Geo>): seq<Geo> {
    if geos == [] then []
    else if Coord(valid, geos[0]) == "" then Entries(valid, geos[1..])
    else [geos[0]] + Entries(valid, geos[1..])
  }

  function Others(valid: Validity, geos: seq<Geo>): seq<Geo> {
    if geos == [] then []
    else if Coord(valid, geos[0]) == "" then [geos[0]] + Others(valid, geos[1..])
    else Others(valid, geos[1..])
  }

  function Coords(valid: Validity, entries: seq<Geo>): seq<string> {
    seq(|entries|, k requires 0 <= k < |entries| => Coord(valid, entries[k]))
  }

  /** Later entries overwrite earlier ones with the same PROP-ID. */
  function ById(valid: Validity, entries: seq<Geo>): map<string, string> {
    if entries == [] then map[]
    else
      var last := entries[|entries| - 1];
      var m := ById(valid, entries[..|entries| - 1]);
      if last.propId != "" then m[last.propId := Coord(valid, last)] else m
  }

  predicate HasAdr(adrs: seq<Adr>, id: string) {
    exists i :: 0 <= i < |adrs| && adrs[i].propId == id
  }

  /** No entry carries a PROP-ID: coordinates go by position. */
  predicate Positional(entries: seq<Geo>) {
    forall k :: 0 <= k < |entries| ==> entries[k].propId == ""
  }

  /** Entry k is taken off the card, for some address to claim. */
  predicate Consumed(adrs: seq<Adr>, entries: seq<Geo>, k: nat)
    requires k < |entries|
  {
    if Positional(entries) then k < |adrs| else entries[k].propId != "" && HasAdr(adrs, entries[k].propId)
  }

  function Surplus(adrs: seq<Adr>, entries: seq<Geo>, k: nat): seq<Geo>
    requires k <= |entries|
    decreases |entries| - k
  {
    if k == |entries| then []
    else if Consumed(adrs, entries, k) then Surplus(adrs, entries, k + 1)
    else [entries[k]] + Surplus(adrs, entries, k + 1)
  }

  /** What a PUT leaves on the card: first what is no coordinate, then the coordinates nobody claims. */
  function Kept(valid: Validity, adrs: seq<Adr>, geos: seq<Geo>): seq<Geo> {
    Others(valid, geos) + Surplus(adrs, Entries(valid, geos), 0)
  }

  function ByAdr(valid: Validity, adrs: seq<Adr>): map<nat, string> {
    map i: nat | i < |adrs| && ParamCoord(valid, adrs[i]) != "" :: ParamCoord(valid, adrs[i])
  }

  function ApplyOne(a: Address, i: nat, byAdr: map<nat, string>, byId: map<string, string>,
                    ordered: seq<string>): Address {
    if i in byAdr then a.(coordinates := byAdr[i])
    else if a.id in byId then a.(coordinates := byId[a.id])
    else if byId == map[] && i < |ordered| then a.(coordinates := ordered[i])
    else a
  }

  function ApplyAll(addresses: seq<Address>, byAdr: map<nat, string>, byId: map<string, string>,
                    ordered: seq<string>): seq<Address> {
    seq(|addresses|, i requires 0 <= i < |addresses| => ApplyOne(addresses[i], i, byAdr, byId, ordered))
  }

  // ----- The three functions, in place -----

  lemma {:induction false} EntriesSnoc(valid: Validity, geos: seq<Geo>, g: Geo)
    ensures Entries(valid, geos + [g]) == Entries(valid, geos) + (if Coord(valid, g) == "" then [] else [g])
  {
    hide Coord;
    if geos == [] {
      assert geos + [g] == [g];
    } else {
      EntriesSnoc(valid, geos[1..], g);
      assert (geos + [g])[0] == geos[0] && (geos + [g])[1..] == geos[1..] + [g];
    }
  }

  lemma {:induction false} OthersSnoc(valid: Validity, geos: seq<Geo>, g: Geo)
    ensures Others(valid, geos + [g]) == Others(valid, geos) + (if Coord(valid, g) == "" then [g] else [])
  {
    hide Coord;
    if geos == [] {
      assert geos + [g] == [g];
    } else {
      OthersSnoc(valid, geos[1..], g);
      assert (geos + [g])[0] == geos[0] && (geos + [g])[1..] == geos[1..] + [g];
    }
  }

  lemma ByIdSnoc(valid: Validity, entries: seq<Geo>, g: Geo)
    ensures ById(valid, entries + [g]) ==
      if g.propId != "" then ById(valid, entries)[g.propId := Coord(valid, g)] else ById(valid, entries)
  {
    hide Coord;
    assert (entries + [g])[..|entries|] == entries;
  }

  lemma {:induction false} ByIdKeys(valid: Validity, entries: seq<Geo>)
    ensures ById(valid, entries) == map[] <==> Positional(entries)
  {
    hide Coord;
    if entries != [] {
      var n := |entries| - 1;
      ByIdKeys(valid, entries[..n]);
      if entries[n].propId != "" { assert entries[n].propId in ById(valid, entries); }
    }
  }

  lemma MovedNothing(valid: Validity)
    ensures Moved(valid, []) == []
  {
  }

  lemma MovedStep(valid: Validity, adrs: seq<Adr>, i: nat, done: seq<Geo>)
    requires i < |adrs|
    ensures var coord := ParamCoord(valid, adrs[i]);
      done + Moved(valid, adrs[i..]) ==
        done + (if coord == "" then [] else [Geo(coord, adrs[i].propId)]) + Moved(valid, adrs[i + 1..])
  {
    hide ParamCoord;
    assert adrs[i..][1..] == adrs[i + 1..];
  }

  class Card {
    var adrs: seq<Adr>
    var geos: seq<Geo>

    /** adrGeoParamsToProperties, on a GET. */
    method AdrGeoParamsToProperties(valid: Validity)
      modifies this
      ensures geos == old(geos) + Moved(valid, old(adrs))
      ensures |adrs| == |old(adrs)| && forall i :: 0 <= i < |adrs| ==> adrs[i] == Cleared(old(adrs)[i])
    {
      hide Normalize, Join, Moved;
      ghost var before, start := adrs, geos;
      MovedNothing(valid);
      assert before[0..] == before && before[|before|..] == [];
      for i := 0 to |adrs|
        invariant |adrs| == |before|
        invariant forall j :: 0 <= j < |adrs| ==> adrs[j] == if j < i then Cleared(before[j]) else before[j]
        invariant geos + Moved(valid, before[i..]) == start + Moved(valid, before)
      {
        MovedStep(valid, before, i, geos);
        var adr := adrs[i];
        if adr.geo.None? || |adr.geo.value| == 0 {
          EmptyParamHasNoCoord(valid, adr);
          continue;
        }
        adrs := adrs[i := adr.(geo := None)];
        var coord := Normalize(valid, Join(adr.geo.value, ","));
        if coord == "" { continue; }
        geos := geos + [Geo(coord, adr.propId)];
      }
    }

    /** The standalone half of takeGeoCoordinates: sort the GEO properties into coordinates and others. */
    method SortGeos(valid: Validity) returns (byId: map<string, string>, ordered: seq<string>, entries: seq<Geo>,
                    kept: seq<Geo>)
      ensures entries == Entries(valid, geos) && kept == Others(valid, geos)
      ensures byId == ById(valid, entries) && ordered == Coords(valid, entries)
    {
      hide Normalize;
      byId, ordered, entries, kept := map[], [], [], [];
      for k := 0 to |geos|
        invariant entries == Entries(valid, geos[..k]) && kept == Others(valid, geos[..k])
        invariant byId == ById(valid, entries) && ordered == Coords(valid, entries)
      {
        var geo := geos[k];
        EntriesSnoc(valid, geos[..k], geo);
        OthersSnoc(valid, geos[..k], geo);
        assert geos[..k + 1] == geos[..k] + [geo];
        var coord := Normalize(valid, geo.value);
        if coord == "" {
          kept := kept + [geo];
          continue;
        }
        ordered := ordered + [coord];
        ByIdSnoc(valid, entries, geo);
        if geo.propId != "" { byId := byId[geo.propId := coord]; }
        entries := entries + [geo];
      }
      assert geos[..|geos|] == geos;
    }

    /** The ADR half of takeGeoCoordinates: every parameter goes, whatever it holds. */
    method TakeParams(valid: Validity) returns (byAdr: map<nat, string>)
      modifies this`adrs
      ensures byAdr == ByAdr(valid, old(adrs))
      ensures |adrs| == |old(adrs)| && forall i :: 0 <= i < |adrs| ==> adrs[i] == old(adrs)[i].(geo := None)
    {
      hide Normalize, Join;
      ghost var before := adrs;
      byAdr := map[];
      for i := 0 to |adrs|
        invariant |adrs| == |before|
        invariant forall j :: 0 <= j < |adrs| ==> adrs[j] == if j < i then before[j].(geo := None) else before[j]
        invariant byAdr == ByAdr(valid, before[..i])
      {
        var adr := adrs[i];
        ByAdrStep(valid, before, i);
        if adr.geo.None? { continue; }
        var coord := Normalize(valid, Join(adr.geo.value, ","));
        if coord != "" { byAdr := byAdr[i := coord]; }
        adrs := adrs[i := adr.(geo := None)];
      }
      assert before[..|before|] == before;
    }

    /** takeGeoCoordinates, on a PUT. */
    method TakeGeoCoordinates(valid: Validity) returns (byAdr: map<nat, string>, byId: map<string, string>,
                              ordered: seq<string>)
      modifies this
      ensures byAdr == ByAdr(valid, old(adrs))
      ensures byId == ById(valid, Entries(valid, old(geos))) && ordered == Coords(valid, Entries(valid, old(geos)))
      ensures |adrs| == |old(adrs)| && forall i :: 0 <= i < |adrs| ==> adrs[i] == old(adrs)[i].(geo := None)
      ensures geos == Kept(valid, old(adrs), old(geos))
    {
      hide Entries, Others, Coords, ById, ByAdr, Surplus, Positional;
      ghost var before := adrs;
      var adrIds := set a | a in adrs && a.propId != "" :: a.propId;
      var addrCount := |adrs|;
      byAdr := TakeParams(valid);
      var entries, kept;
      byId, ordered, entries, kept := SortGeos(valid);
      ByIdKeys(valid, entries);
      geos := DropConsumed(before, adrIds, addrCount, byId == map[], entries, kept);
    }
  }

  lemma ByAdrStep(valid: Validity, adrs: seq<Adr>, i: nat)
    requires i < |adrs|
    ensures ByAdr(valid, adrs[..i + 1]) ==
      if ParamCoord(valid, adrs[i]) != "" then ByAdr(valid, adrs[..i])[i := ParamCoord(valid, adrs[i])]
          else ByAdr(valid, adrs[..i])
  {
    hide ParamCoord;
  }

  /** The last loop of takeGeoCoordinates: entries that no address will claim join what is kept. */
  method DropConsumed(ghost adrs: seq<Adr>, adrIds: set<string>, addrCount: nat, positional: bool,
                      entries: seq<Geo>, others: seq<Geo>)
    returns (kept: seq<Geo>)
    requires adrIds == set a | a in adrs && a.propId != "" :: a.propId
    requires addrCount == |adrs| && positional == Positional(entries)
    ensures kept == others + Surplus(adrs, entries, 0)
  {
    kept := others;
    for k := 0 to |entries|
      invariant kept + Surplus(adrs, entries, k) == others + Surplus(adrs, entries, 0)
    {
      var e := entries[k];
      assert e.propId != "" ==> (e.propId in adrIds <==> HasAdr(adrs, e.propId));
      if (positional && k < addrCount) || (!positional && e.propId != "" && e.propId in adrIds) { continue; }
      kept := kept + [e];
    }
  }

  lemma EmptyParamHasNoCoord(valid: Validity, a: Adr)
    requires a.geo.None? || a.geo.value == []
    ensures ParamCoord(valid, a) == ""
  {
    assert TrimSpace("") == "";
  }

  class Record {
    var addresses: seq<Address>
  }

  /** applyGeoCoordinates. */
  method ApplyGeoCoordinates(record: Record?, byAdr: map<nat, string>, byId: map<string, string>, ordered: seq<string>)
    modifies record
    ensures record != null ==> record.addresses == ApplyAll(old(record.addresses), byAdr, byId, ordered)
  {
    if record == null { return; }
    ghost var before := record.addresses;
    for i := 0 to |record.addresses|
      invariant |record.addresses| == |before|
      invariant forall j :: 0 <= j < |before| ==>
        record.addresses[j] == if j < i then ApplyOne(before[j], j, byAdr, byId, ordered) else before[j]
    {
      var a := record.addresses[i];
      if i in byAdr {
        record.addresses := record.addresses[i := a.(coordinates := byAdr[i])];
        continue;
      }
      if a.id in byId {
        record.addresses := record.addresses[i := a.(coordinates := byId[a.id])];
        continue;
      }
      if byId == map[] && i < |ordered| {
        record.addresses := record.addresses[i := a.(coordinates := ordered[i])];
      }
    }
  }

  // ----- Who claims what -----

  function SyntheticId(i: nat): string {
    "addr" + Itoa(i + 1)
  }

  /** The ID the adapter gives the address imported from ADR i. */
  function AddressId(adrs: seq<Adr>, i: nat): (id: string)
    requires i < |adrs|
    ensures id != ""
  {
    if adrs[i].propId != "" then adrs[i].propId else SyntheticId(i)
  }

  /** The addresses the adapter imports from the ADRs, in card order. */
  predicate ImportedFrom(addresses: seq<Address>, adrs: seq<Adr>) {
    |addresses| == |adrs| && forall i :: 0 <= i < |adrs| ==> addresses[i].id == AddressId(adrs, i)
  }

  function LastWithId(entries: seq<Geo>, id: string): (k: Option<nat>)
    ensures k.Some? ==> k.value < |entries| && entries[k.value].propId == id
    ensures k.Some? ==> forall j :: k.value < j < |entries| ==> entries[j].propId != id
    ensures k.None? ==> forall j :: 0 <= j < |entries| ==> entries[j].propId != id
  {
    if entries == [] then None
    else if entries[|entries| - 1].propId == id then Some(|entries| - 1)
    else LastWithId(entries[..|entries| - 1], id)
  }

  /** The ADR carries a coordinate of its own, which wins over every standalone one. */
  predicate Own(valid: Validity, a: Adr) {
    ParamCoord(valid, a) != ""
  }

  /** The entry whose coordinate address i gets, if it gets any from a standalone GEO. */
  function Source(valid: Validity, adrs: seq<Adr>, entries: seq<Geo>, i: nat): Option<nat>
    requires i < |adrs|
  {
    if Own(valid, adrs[i]) then None
    else if !Positional(entries) then LastWithId(entries, AddressId(adrs, i))
    else if i < |entries| then Some(i) else None
  }

  lemma {:induction false} ByIdIsLast(valid: Validity, entries: seq<Geo>, id: string)
    requires id != ""
    ensures id in ById(valid, entries) <==> LastWithId(entries, id).Some?
    ensures id in ById(valid, entries) ==>
      ById(valid, entries)[id] == Coord(valid, entries[LastWithId(entries, id).value])
  {
    hide Coord;
    if entries != [] { ByIdIsLast(valid, entries[..|entries| - 1], id); }
  }

  /** Which coordinate each address ends up with: its own, that of its source, or the one it came with. */
  lemma AppliedFromSource(valid: Validity, adrs: seq<Adr>, entries: seq<Geo>, addresses: seq<Address>, i: nat)
    requires i < |adrs| && ImportedFrom(addresses, adrs)
    ensures var a := ApplyAll(addresses, ByAdr(valid, adrs), ById(valid, entries), Coords(valid, entries))[i];
      a == if Own(valid, adrs[i]) then addresses[i].(coordinates := ParamCoord(valid, adrs[i]))
           else match Source(valid, adrs, entries, i)
             case None => addresses[i]
             case Some(k) => addresses[i].(coordinates := Coord(valid, entries[k]))
  {
    hide Coord, ById, LastWithId, AddressId, ParamCoord;
    ByIdKeys(valid, entries);
    ByIdIsLast(valid, entries, AddressId(adrs, i));
  }

  /** The addresses that get the coordinate of entry k. */
  function Receivers(valid: Validity, adrs: seq<Adr>, entries: seq<Geo>, k: nat): set<nat> {
    set i: nat | i < |adrs| && Source(valid, adrs, entries, i) == Some(k)
  }

  predicate DistinctAdrIds(adrs: seq<Adr>) {
    forall i, j :: 0 <= i < j < |adrs| && adrs[i].propId != "" ==> adrs[i].propId != adrs[j].propId
  }

  /** The ADR with this PROP-ID has no coordinate of its own. */
  predicate FreeAdr(valid: Validity, adrs: seq<Adr>, id: string) {
    exists i :: 0 <= i < |adrs| && adrs[i].propId == id && !Own(valid, adrs[i])
  }

  /** Some ADR without a PROP-ID, and without a coordinate of its own, gets this very ID as its synthetic one. */
  predicate SyntheticClash(valid: Validity, adrs: seq<Adr>, id: string) {
    exists i :: 0 <= i < |adrs| && adrs[i].propId == "" && SyntheticId(i) == id && !Own(valid, adrs[i])
  }

  function Bit(b: bool): nat { if b then 1 else 0 }

  /** A later entry has the same PROP-ID, so this one's coordinate is overwritten. */
  predicate Shadowed(entries: seq<Geo>, k: nat)
    requires k < |entries|
  {
    exists j :: k < j < |entries| && entries[j].propId == entries[k].propId
  }

  lemma SourceWithId(entries: seq<Geo>, k: nat, id: string)
    requires k < |entries| && id != ""
    ensures LastWithId(entries, id) == Some(k) <==> entries[k].propId == id && !Shadowed(entries, k)
  {
  }

  lemma AdrsWithId(valid: Validity, adrs: seq<Adr>, id: string) returns (named: set<nat>, synthetic: set<nat>)
    requires DistinctAdrIds(adrs) && id != ""
    ensures named == set i: nat | i < |adrs| && adrs[i].propId == id && !Own(valid, adrs[i])
    ensures synthetic == set i: nat | i < |adrs| && adrs[i].propId == "" && SyntheticId(i) == id && !Own(valid, adrs[i])
    ensures |named| == Bit(FreeAdr(valid, adrs, id)) && |synthetic| == Bit(SyntheticClash(valid, adrs, id))
    ensures named !! synthetic
  {
    hide SyntheticId, Own;
    named := set i: nat | i < |adrs| && adrs[i].propId == id && !Own(valid, adrs[i]);
    synthetic := set i: nat | i < |adrs| && adrs[i].propId == "" && SyntheticId(i) == id && !Own(valid, adrs[i]);
    if i: nat :| i < |adrs| && adrs[i].propId == id && !Own(valid, adrs[i]) {
      assert named == {i};
    } else {
      assert named == {};
    }
    if i: nat :| i < |adrs| && adrs[i].propId == "" && SyntheticId(i) == id && !Own(valid, adrs[i]) {
      forall j: nat | j in synthetic ensures j == i { SyntheticIdsDiffer(i, j); }
      assert synthetic == {i};
    } else {
      assert synthetic == {};
    }
  }

  lemma SyntheticIdsDiffer(i: nat, j: nat)
    requires SyntheticId(i) == SyntheticId(j)
    ensures i == j
  {
    assert SyntheticId(i)[4..] == Itoa(i + 1) && SyntheticId(j)[4..] == Itoa(j + 1);
    ItoaInjective(i + 1, j + 1);
  }

  /** By position a coordinate is claimed by exactly one address if consumed, and by none if kept, except exactly when
      the address at its position has a coordinate of its own: then it is consumed and given to nobody. */
  lemma ConservedByPosition(valid: Validity, adrs: seq<Adr>, entries: seq<Geo>, k: nat)
    requires k < |entries| && Positional(entries)
    ensures |Receivers(valid, adrs, entries, k)| == Bit(Consumed(adrs, entries, k)) <==>
      !(k < |adrs| && Own(valid, adrs[k]))
  {
    hide Own;
    var r := Receivers(valid, adrs, entries, k);
    if k < |adrs| && !Own(valid, adrs[k]) { assert r == {k}; } else { assert r == {}; }
  }

  /** A GEO beside an ADR with a coordinate of its own: it goes off the card and to nobody. */
  lemma SupersededIsLost(valid: Validity)
    requires valid("geo:1,2")
    ensures var adrs, geos := [Adr(Some(["geo:1,2"]), "")], [Geo("geo:1,2", "")];
      Kept(valid, adrs, geos) == [] && Receivers(valid, adrs, Entries(valid, geos), 0) == {}
  {
    hide Coord, Normalize, Own;
    var adrs, g := [Adr(Some(["geo:1,2"]), "")], Geo("geo:1,2", "");
    SampleIsPlain(valid);
    assert Coord(valid, g) == "geo:1,2" by { SampleCoord(valid, ""); }
    OneCoordinate(valid, g);
    assert Own(valid, adrs[0]) by { SampleIsOwn(valid); }
    assert Positional([g]) && Consumed(adrs, [g], 0) && Surplus(adrs, [g], 0) == Surplus(adrs, [g], 1) == [];
  }

  lemma SampleIsOwn(valid: Validity)
    requires Normalize(valid, "geo:1,2") == "geo:1,2"
    ensures Own(valid, Adr(Some(["geo:1,2"]), ""))
  {
    hide Normalize;
    assert Join(["geo:1,2"], ",") == "geo:1,2";
  }

  /** By PROP-ID, when the ADRs' are distinct, a coordinate is claimed by exactly one address if consumed, and by none
      if kept, exactly in these cases: it has no PROP-ID; a later coordinate has the same PROP-ID and no ADR carries
      that; or none has, and either no ADR carries it and no free ADR gets it as its synthetic ID, or one does and just
      one of the two is free.  (A free address with a clashing synthetic ID claims the coordinate behind the card's
      back.) */
  lemma ConservedById(valid: Validity, adrs: seq<Adr>, entries: seq<Geo>, k: nat)
    requires k < |entries| && !Positional(entries) && DistinctAdrIds(adrs)
    ensures var id := entries[k].propId;
      |Receivers(valid, adrs, entries, k)| == Bit(Consumed(adrs, entries, k)) <==>
        (|| id == ""
         || (Shadowed(entries, k) && !HasAdr(adrs, id))
         || (!Shadowed(entries, k) && HasAdr(adrs, id) && FreeAdr(valid, adrs, id) != SyntheticClash(valid, adrs, id))
         || (!Shadowed(entries, k) && !HasAdr(adrs, id) && !SyntheticClash(valid, adrs, id)))
  {
    hide SyntheticId, LastWithId, Own;
    var id := entries[k].propId;
    if id == "" {
      AnonymousStays(valid, adrs, entries, k);
    } else if Shadowed(entries, k) {
      ShadowedIsLost(valid, adrs, entries, k);
    } else {
      var named, synthetic := AdrsWithId(valid, adrs, id);
      ReceiversById(valid, adrs, entries, k, named, synthetic);
      assert |named + synthetic| == |named| + |synthetic|;
    }
  }

  /** With no GEO parameters and distinct PROP-IDs on both sides, every coordinate is conserved exactly if no ADR
      without a PROP-ID gets its PROP-ID as the synthetic one. */
  lemma ConservedWithoutParams(valid: Validity, adrs: seq<Adr>, entries: seq<Geo>, k: nat)
    requires k < |entries| && DistinctAdrIds(adrs) && (entries[k].propId != "" ==> !Shadowed(entries, k))
    requires forall i :: 0 <= i < |adrs| ==> !Own(valid, adrs[i])
    ensures |Receivers(valid, adrs, entries, k)| == Bit(Consumed(adrs, entries, k)) <==>
      entries[k].propId == "" || !SyntheticClash(valid, adrs, entries[k].propId)
  {
    hide Own, SyntheticId;
    if Positional(entries) {
      ConservedByPosition(valid, adrs, entries, k);
    } else {
      ConservedById(valid, adrs, entries, k);
    }
  }

  lemma AnonymousStays(valid: Validity, adrs: seq<Adr>, entries: seq<Geo>, k: nat)
    requires k < |entries| && !Positional(entries) && entries[k].propId == ""
    ensures Receivers(valid, adrs, entries, k) == {}
  {
    hide LastWithId, Own;
    forall i: nat | i < |adrs| ensures Source(valid, adrs, entries, i) != Some(k) {
      assert AddressId(adrs, i) != "";
    }
  }

  lemma ReceiversById(valid: Validity, adrs: seq<Adr>, entries: seq<Geo>, k: nat, named: set<nat>, synthetic: set<nat>)
    requires k < |entries| && !Positional(entries) && !Shadowed(entries, k) && entries[k].propId != ""
    requires named == set i: nat | i < |adrs| && adrs[i].propId == entries[k].propId && !Own(valid, adrs[i])
    requires synthetic ==
      set i: nat | i < |adrs| && adrs[i].propId == "" && SyntheticId(i) == entries[k].propId && !Own(valid, adrs[i])
    ensures Receivers(valid, adrs, entries, k) == named + synthetic
  {
    hide SyntheticId, LastWithId, Positional, Shadowed, Own;
    forall i: nat | i < |adrs| ensures Source(valid, adrs, entries, i) == Some(k) <==> i in named || i in synthetic {
      SourceWithId(entries, k, AddressId(adrs, i));
    }
  }

  /** Of two coordinates with one PROP-ID nobody gets the earlier, whether or not it is taken off the card. */
  lemma ShadowedIsLost(valid: Validity, adrs: seq<Adr>, entries: seq<Geo>, k: nat)
    requires k < |entries| && !Positional(entries) && Shadowed(entries, k) && entries[k].propId != ""
    ensures Receivers(valid, adrs, entries, k) == {}
    ensures Consumed(adrs, entries, k) <==> HasAdr(adrs, entries[k].propId)
  {
    hide LastWithId, Shadowed, Positional, Own;
    forall i: nat | i < |adrs| ensures Source(valid, adrs, entries, i) != Some(k) {
      SourceWithId(entries, k, AddressId(adrs, i));
    }
  }

  /** The clash on a small card: the coordinate stays on the card and lands on the address as well. */
  lemma ClashDuplicates(valid: Validity)
    requires valid("geo:1,2")
    ensures var adrs, geos := [Adr(None, "")], [Geo("geo:1,2", "addr1")];
      && Kept(valid, adrs, geos) == geos
      && ApplyAll([Address("addr1", "")], map[], ById(valid, Entries(valid, geos)), Coords(valid, Entries(valid, geos)))
           == [Address("addr1", "geo:1,2")]
  {
    hide Coord, Normalize;
    var adrs, g := [Adr(None, "")], Geo("geo:1,2", "addr1");
    SampleIsPlain(valid);
    assert Coord(valid, g) == "geo:1,2" by { SampleCoord(valid, "addr1"); }
    OneCoordinate(valid, g);
    UnclaimedAlone(adrs, g);
    ByIdSnoc(valid, [], g);
    assert [] + [g] == [g];
    assert ById(valid, []) == map[];
  }

  lemma SampleCoord(valid: Validity, id: string)
    requires Normalize(valid, "geo:1,2") == "geo:1,2"
    ensures Coord(valid, Geo("geo:1,2", id)) == "geo:1,2"
  {
    hide Normalize;
  }

  lemma UnclaimedAlone(adrs: seq<Adr>, g: Geo)
    requires g.propId != "" && !HasAdr(adrs, g.propId)
    ensures Surplus(adrs, [g], 0) == [g]
  {
    assert !Positional([g]) by { assert [g][0].propId != ""; }
    assert !Consumed(adrs, [g], 0);
    assert Surplus(adrs, [g], 1) == [];
  }

  lemma SampleIsPlain(valid: Validity)
    requires valid("geo:1,2")
    ensures Normalize(valid, "geo:1,2") == "geo:1,2"
  {
    hide ToFold, Normalize;
    var c := "geo:1,2";
    assert forall i :: 0 <= i < |c| ==> c[i] != '\\';
    assert c[..4] == "geo:";
    NormalizeKeeps(valid, c);
  }

  lemma OneCoordinate(valid: Validity, g: Geo)
    requires Coord(valid, g) != ""
    ensures Entries(valid, [g]) == [g] && Others(valid, [g]) == []
  {
    hide Coord;
    assert [g][1..] == [];
  }

  // ----- What stays on the card -----

  function Taken(adrs: seq<Adr>, entries: seq<Geo>, k: nat): seq<Geo>
    requires k <= |entries|
    decreases |entries| - k
  {
    if k == |entries| then []
    else if Consumed(adrs, entries, k) then [entries[k]] + Taken(adrs, entries, k + 1)
    else Taken(adrs, entries, k + 1)
  }

  lemma {:induction false} SurplusAndTaken(adrs: seq<Adr>, entries: seq<Geo>, k: nat)
    requires k <= |entries|
    ensures multiset(entries[k..]) == multiset(Surplus(adrs, entries, k)) + multiset(Taken(adrs, entries, k))
    decreases |entries| - k
  {
    hide Consumed;
    if k < |entries| {
      SurplusAndTaken(adrs, entries, k + 1);
      assert entries[k..] == [entries[k]] + entries[k + 1..];
    }
  }

  lemma {:induction false} EntriesAndOthers(valid: Validity, geos: seq<Geo>)
    ensures multiset(geos) == multiset(Others(valid, geos)) + multiset(Entries(valid, geos))
  {
    hide Coord;
    if geos != [] {
      EntriesAndOthers(valid, geos[1..]);
      assert geos == [geos[0]] + geos[1..];
    }
  }

  /** No GEO property is lost or altered: what a PUT leaves on the card and what it takes make up what was there. */
  lemma GeosAreKeptOrTaken(valid: Validity, adrs: seq<Adr>, geos: seq<Geo>)
    ensures multiset(geos) == multiset(Kept(valid, adrs, geos)) + multiset(Taken(adrs, Entries(valid, geos), 0))
  {
    var entries := Entries(valid, geos);
    EntriesAndOthers(valid, geos);
    SurplusAndTaken(adrs, entries, 0);
    assert entries[0..] == entries;
  }

  /** The remaining GEO properties in their original order; k counts the coordinates passed. */
  function Remaining(valid: Validity, adrs: seq<Adr>, entries: seq<Geo>, geos: seq<Geo>, k: nat): seq<Geo>
    requires k <= |entries| && Entries(valid, geos) == entries[k..]
    decreases |geos|
  {
    if geos == [] then []
    else if Coord(valid, geos[0]) == "" then [geos[0]] + Remaining(valid, adrs, entries, geos[1..], k)
    else
      assert entries[k + 1..] == entries[k..][1..];
      var rest := Remaining(valid, adrs, entries, geos[1..], k + 1);
      if Consumed(adrs, entries, k) then rest else [geos[0]] + rest
  }

  /** No unclaimed coordinate stands in front of a property that is no coordinate. */
  predicate SurplusIsLast(valid: Validity, adrs: seq<Adr>, entries: seq<Geo>, geos: seq<Geo>, k: nat)
    requires k <= |entries| && Entries(valid, geos) == entries[k..]
    decreases |geos|
  {
    if geos == [] then true
    else if Coord(valid, geos[0]) == "" then SurplusIsLast(valid, adrs, entries, geos[1..], k)
    else
      assert entries[k + 1..] == entries[k..][1..];
      (Consumed(adrs, entries, k) || Others(valid, geos[1..]) == [])
          && SurplusIsLast(valid, adrs, entries, geos[1..], k + 1)
  }

  lemma {:induction false} NoOthers(valid: Validity, geos: seq<Geo>)
    ensures forall k :: 0 <= k < |Others(valid, geos)| ==> Coord(valid, Others(valid, geos)[k]) == ""
  {
    hide Coord;
    if geos != [] { NoOthers(valid, geos[1..]); }
  }

  /** What stays keeps its order exactly when no unclaimed coordinate precedes a property that is no coordinate:
      the latter are moved to the front. */
  lemma {:induction false} KeptInOrderIff(valid: Validity, adrs: seq<Adr>, entries: seq<Geo>, geos: seq<Geo>, k: nat)
    requires k <= |entries| && Entries(valid, geos) == entries[k..]
    ensures Others(valid, geos) + Surplus(adrs, entries, k) == Remaining(valid, adrs, entries, geos, k)
       <==> SurplusIsLast(valid, adrs, entries, geos, k)
    decreases |geos|
  {
    hide Coord, Consumed;
    if geos == [] {
      assert k == |entries|;
    } else if Coord(valid, geos[0]) == "" {
      KeptInOrderIff(valid, adrs, entries, geos[1..], k);
      PrependIff(geos[0], Others(valid, geos[1..]) + Surplus(adrs, entries, k),
          Remaining(valid, adrs, entries, geos[1..], k));
      assert Others(valid, geos) + Surplus(adrs, entries, k) ==
          [geos[0]] + (Others(valid, geos[1..]) + Surplus(adrs, entries, k));
    } else {
      assert entries[k + 1..] == entries[k..][1..];
      assert entries[k] == entries[k..][0] == geos[0];
      KeptInOrderIff(valid, adrs, entries, geos[1..], k + 1);
      if !Consumed(adrs, entries, k) { SurplusInFront(valid, adrs, entries, geos, k); }
    }
  }

  /** A coordinate nobody claims, in front of a GEO that is no coordinate, ends up behind it. */
  lemma KeptCanReorder(valid: Validity)
    requires valid("geo:1,2")
    ensures Kept(valid, [], [Geo("geo:1,2", "addr1"), Geo("", "")]) == [Geo("", ""), Geo("geo:1,2", "addr1")]
  {
    hide Coord, Normalize;
    var g, h := Geo("geo:1,2", "addr1"), Geo("", "");
    SampleIsPlain(valid);
    assert Coord(valid, g) == "geo:1,2" by { SampleCoord(valid, "addr1"); }
    assert Coord(valid, h) == "" by { BlankIsNoCoordinate(valid); }
    assert [g, h][1..] == [h];
    assert Entries(valid, [h]) == Entries(valid, []) == [] && Others(valid, [h]) == [h] + Others(valid, []) == [h];
    assert Entries(valid, [g, h]) == [g] + Entries(valid, [h]) == [g];
    assert Others(valid, [g, h]) == Others(valid, [h]);
    UnclaimedAlone([], g);
  }

  lemma BlankIsNoCoordinate(valid: Validity)
    ensures Coord(valid, Geo("", "")) == ""
  {
    EmptyIsNoCoordinate(valid);
  }

  lemma PrependIff(g: Geo, a: seq<Geo>, b: seq<Geo>)
    ensures [g] + a == [g] + b <==> a == b
  {
    assert ([g] + a)[1..] == a && ([g] + b)[1..] == b;
  }

  lemma SurplusInFront(valid: Validity, adrs: seq<Adr>, entries: seq<Geo>, geos: seq<Geo>, k: nat)
    requires k < |entries| && Entries(valid, geos) == entries[k..] && geos != [] && Coord(valid, geos[0]) != ""
    requires !Consumed(adrs, entries, k) && entries[k] == geos[0] && Entries(valid, geos[1..]) == entries[k + 1..]
    requires SurplusIsLast(valid, adrs, entries, geos[1..], k + 1) <==>
      Others(valid, geos[1..]) + Surplus(adrs, entries, k + 1) == Remaining(valid, adrs, entries, geos[1..], k + 1)
    ensures Others(valid, geos) + Surplus(adrs, entries, k) == Remaining(valid, adrs, entries, geos, k)
       <==> SurplusIsLast(valid, adrs, entries, geos, k)
  {
    hide Coord, Consumed;
    var rest := Others(valid, geos[1..]);
    NoOthers(valid, geos[1..]);
    var kept := Others(valid, geos) + Surplus(adrs, entries, k);
    assert kept == rest + ([geos[0]] + Surplus(adrs, entries, k + 1));
    if rest == [] {
      PrependIff(geos[0], Surplus(adrs, entries, k + 1), Remaining(valid, adrs, entries, geos[1..], k + 1));
      assert rest + Surplus(adrs, entries, k + 1) == Surplus(adrs, entries, k + 1);
      assert kept == [geos[0]] + Surplus(adrs, entries, k + 1);
    } else {
      assert kept[0] == rest[0];
    }
  }

  // ----- GET, then PUT -----

  /** The card a GET starts from: one ADR per address, the coordinate split at its commas by the decoder. */
  function Written(ids: seq<string>, coords: seq<string>): seq<Adr>
    requires |ids| == |coords|
  {
    seq(|ids|, i requires 0 <= i < |ids| => Adr(if coords[i] == "" then None else Some(Split(coords[i], ',')), ids[i]))
  }

  function Wired(escaped: bool, geos: seq<Geo>): seq<Geo> {
    seq(|geos|, k requires 0 <= k < |geos| => if escaped then geos[k].(value := Escape(geos[k].value)) else geos[k])
  }

  lemma WrittenCoord(valid: Validity, ids: seq<string>, coords: seq<string>, i: nat)
    requires i < |ids| == |coords|
    ensures ParamCoord(valid, Written(ids, coords)[i]) == Normalize(valid, coords[i])
  {
    hide Normalize, Split;
    if coords[i] == "" { EmptyIsNoCoordinate(valid); } else { assert "," == [',']; JoinSplit(coords[i], ','); }
  }

  /** The same card once the parameters are gone. */
  function Bare(ids: seq<string>): seq<Adr> {
    seq(|ids|, i requires 0 <= i < |ids| => Adr(None, ids[i]))
  }

  lemma ClearedIsBare(ids: seq<string>, coords: seq<string>, i: nat)
    requires i < |ids| == |coords|
    ensures Cleared(Written(ids, coords)[i]) == Bare(ids)[i]
  {
    hide Split;
  }

  /** Coordinate-bearing ADRs have a PROP-ID that is no other address's ID. */
  predicate UniqueIds(valid: Validity, ids: seq<string>, coords: seq<string>)
    requires |ids| == |coords|
  {
    && (forall i :: 0 <= i < |ids| && Normalize(valid, coords[i]) != "" ==> ids[i] != "")
    && (forall i, j :: 0 <= i < |ids| && 0 <= j < |ids| && i != j && Normalize(valid, coords[i]) != "" ==>
          ids[i] != AddressId(Bare(ids), j))
  }

  predicate Survives(escaped: bool, c: string) {
    escaped || !HasEscapedComma(c)
  }

  /** The GEO properties written are those of the ADRs with a coordinate, one each. */
  lemma {:induction false} MovedFrom(valid: Validity, adrs: seq<Adr>, k: nat) returns (i: nat)
    requires k < |Moved(valid, adrs)|
    ensures i < |adrs| && ParamCoord(valid, adrs[i]) != ""
    ensures Moved(valid, adrs)[k] == Geo(ParamCoord(valid, adrs[i]), adrs[i].propId)
  {
    hide ParamCoord;
    if ParamCoord(valid, adrs[0]) == "" {
      i := MovedFrom(valid, adrs[1..], k);
      i := i + 1;
    } else if k == 0 {
      i := 0;
    } else {
      i := MovedFrom(valid, adrs[1..], k - 1);
      i := i + 1;
    }
  }

  lemma {:induction false} MovedTo(valid: Validity, adrs: seq<Adr>, i: nat) returns (k: nat)
    requires i < |adrs| && ParamCoord(valid, adrs[i]) != ""
    ensures k < |Moved(valid, adrs)| && Moved(valid, adrs)[k] == Geo(ParamCoord(valid, adrs[i]), adrs[i].propId)
  {
    hide ParamCoord;
    if i == 0 {
      k := 0;
    } else {
      k := MovedTo(valid, adrs[1..], i - 1);
      if ParamCoord(valid, adrs[0]) != "" { k := k + 1; }
    }
  }

  lemma {:induction false} AllEntries(valid: Validity, geos: seq<Geo>)
    requires forall k :: 0 <= k < |geos| ==> Coord(valid, geos[k]) != ""
    ensures Entries(valid, geos) == geos && Others(valid, geos) == []
  {
    hide Coord;
    if geos != [] { AllEntries(valid, geos[1..]); }
  }

  lemma {:induction false} AllConsumed(adrs: seq<Adr>, entries: seq<Geo>, k: nat)
    requires k <= |entries| && forall j :: 0 <= j < |entries| ==>
      entries[j].propId != "" && HasAdr(adrs, entries[j].propId)
    ensures Surplus(adrs, entries, k) == []
    decreases |entries| - k
  {
    if k < |entries| {
      assert entries[k].propId != "";
      AllConsumed(adrs, entries, k + 1);
    }
  }

  /** The GEO properties a PUT sees after a GET of these addresses. */
  function Returned(valid: Validity, escaped: bool, ids: seq<string>, coords: seq<string>): seq<Geo>
    requires |ids| == |coords|
  {
    Wired(escaped, Moved(valid, Written(ids, coords)))
  }

  /** The card as the client sends it back: nothing else touches the ADRs or the GEO properties. */
  predicate RoundTripped(valid: Validity, escaped: bool, ids: seq<string>, coords: seq<string>) {
    && |ids| == |coords| && UniqueIds(valid, ids, coords)
    && forall i :: 0 <= i < |coords| ==> Survives(escaped, Normalize(valid, coords[i]))
  }

  /** Each returned property holds the coordinate of one address and carries its PROP-ID. */
  lemma ReturnedFrom(valid: Validity, escaped: bool, ids: seq<string>, coords: seq<string>, k: nat) returns (i: nat)
    requires RoundTripped(valid, escaped, ids, coords) && k < |Returned(valid, escaped, ids, coords)|
    ensures var g := Returned(valid, escaped, ids, coords)[k];
      i < |ids| && g.propId == ids[i] != "" && Coord(valid, g) == Normalize(valid, coords[i]) != ""
  {
    hide ParamCoord, Normalize, Escape, AddressId, Moved, HasEscapedComma;
    var adrs := Written(ids, coords);
    i := MovedFrom(valid, adrs, k);
    WrittenCoord(valid, ids, coords, i);
    NormalizeAgain(valid, coords[i]);
  }

  lemma ReturnedTo(valid: Validity, escaped: bool, ids: seq<string>, coords: seq<string>, i: nat) returns (k: nat)
    requires i < |ids| == |coords| && Normalize(valid, coords[i]) != ""
    ensures k < |Returned(valid, escaped, ids, coords)| && Returned(valid, escaped, ids, coords)[k].propId == ids[i]
  {
    hide ParamCoord, Normalize, Escape, Moved;
    WrittenCoord(valid, ids, coords, i);
    k := MovedTo(valid, Written(ids, coords), i);
  }

  /** Every returned property is consumed. */
  lemma NothingLeftBehind(valid: Validity, escaped: bool, ids: seq<string>, coords: seq<string>)
    requires RoundTripped(valid, escaped, ids, coords)
    ensures var geos := Returned(valid, escaped, ids, coords);
      && Entries(valid, geos) == geos && Kept(valid, Bare(ids), geos) == []
      && forall k :: 0 <= k < |geos| ==> geos[k].propId != ""
  {
    hide Coord, Returned, UniqueIds, Survives;
    var geos := Returned(valid, escaped, ids, coords);
    forall k | 0 <= k < |geos|
        ensures Coord(valid, geos[k]) != "" && geos[k].propId != "" && HasAdr(Bare(ids), geos[k].propId) {
      var i := ReturnedFrom(valid, escaped, ids, coords, k);
      assert Bare(ids)[i].propId == geos[k].propId;
    }
    AllEntries(valid, geos);
    AllConsumed(Bare(ids), geos, 0);
  }

  /** The PROP-ID lookup finds the coordinate of the address itself, and only of one that has any. */
  lemma LookupIsOwn(valid: Validity, escaped: bool, ids: seq<string>, coords: seq<string>, i: nat)
    requires RoundTripped(valid, escaped, ids, coords) && i < |ids|
    ensures var byId, id := ById(valid, Returned(valid, escaped, ids, coords)), AddressId(Bare(ids), i);
      && (id in byId <==> Normalize(valid, coords[i]) != "")
      && (id in byId ==> byId[id] == Normalize(valid, coords[i]))
  {
    hide Coord, Returned, Normalize, LastWithId, ById, Survives;
    var geos, id := Returned(valid, escaped, ids, coords), AddressId(Bare(ids), i);
    ByIdIsLast(valid, geos, id);
    if LastWithId(geos, id).Some? {
      var j := ReturnedFrom(valid, escaped, ids, coords, LastWithId(geos, id).value);
      assert j == i;
    }
    if Normalize(valid, coords[i]) != "" {
      var k := ReturnedTo(valid, escaped, ids, coords, i);
      assert geos[k].propId == ids[i] == id;
    }
  }

  /** A GET followed by a PUT of the same card gives each address its own coordinate, normalised, and leaves no GEO
      property behind, whether or not the encoder escaped the commas. */
  lemma GetThenPut(valid: Validity, escaped: bool, ids: seq<string>, coords: seq<string>, addresses: seq<Address>)
    requires RoundTripped(valid, escaped, ids, coords)
    requires ImportedFrom(addresses, Bare(ids)) && forall i :: 0 <= i < |addresses| ==> addresses[i].coordinates == ""
    ensures var geos := Returned(valid, escaped, ids, coords);
      var entries := Entries(valid, geos);
      && Kept(valid, Bare(ids), geos) == []
      && forall i :: 0 <= i < |ids| ==>
           ApplyAll(addresses, ByAdr(valid, Bare(ids)), ById(valid, entries), Coords(valid, entries))[i].coordinates
               == Normalize(valid, coords[i])
  {
    hide Coord, Returned, Normalize, UniqueIds, Survives, ById, AddressId;
    var geos := Returned(valid, escaped, ids, coords);
    NothingLeftBehind(valid, escaped, ids, coords);
    assert ByAdr(valid, Bare(ids)) == map[];
    ByIdKeys(valid, geos);
    forall i | 0 <= i < |ids|
      ensures ApplyAll(addresses, map[], ById(valid, geos), Coords(valid, geos))[i].coordinates
        == Normalize(valid, coords[i])
    {
      LookupIsOwn(valid, escaped, ids, coords, i);
      if geos != [] { assert geos[0].propId != ""; }
    }
  }

  /** So an address gets exactly its original coordinate back if and only if that was plain (or there was none). */
  lemma RestoredIffPlain(valid: Validity, escaped: bool, ids: seq<string>, coords: seq<string>,
                         addresses: seq<Address>, i: nat)
    requires RoundTripped(valid, escaped, ids, coords) && i < |ids|
    requires ImportedFrom(addresses, Bare(ids)) && forall j :: 0 <= j < |addresses| ==> addresses[j].coordinates == ""
    ensures var entries := Entries(valid, Returned(valid, escaped, ids, coords));
      (ApplyAll(addresses, ByAdr(valid, Bare(ids)), ById(valid, entries), Coords(valid, entries))[i]
          .coordinates == coords[i])
        <==> (coords[i] == "" || Plain(valid, coords[i]))
  {
    hide Coord, Returned, Normalize, UniqueIds, Survives, ById, ByAdr, AddressId, Plain, Entries, ApplyOne;
    GetThenPut(valid, escaped, ids, coords, addresses);
    NormalizeKeeps(valid, coords[i]);
  }

  /** The three functions in the order a GET and a later PUT of the same card run them: the coordinates move to GEO
      properties, the client sends the card back, they are taken off it, the adapter imports the addresses, and the
      coordinates are set on them.  Every address ends with its own coordinate, normalised, and no GEO is left. */
  method GetThenPutInPlace(valid: Validity, escaped: bool, card: Card, record: Record, ghost ids: seq<string>,
                           ghost coords: seq<string>)
    requires RoundTripped(valid, escaped, ids, coords)
    requires card.adrs == Written(ids, coords) && card.geos == []
    requires ImportedFrom(record.addresses, Bare(ids))
    requires forall i :: 0 <= i < |record.addresses| ==> record.addresses[i].coordinates == ""
    modifies card, record
    ensures card.geos == [] && card.adrs == Bare(ids)
    ensures |record.addresses| == |ids|
    ensures forall i :: 0 <= i < |ids| ==>
      record.addresses[i] == old(record.addresses[i]).(coordinates := Normalize(valid, coords[i]))
  {
    hide UniqueIds, Survives, Normalize, ById, ByAdr, Coords, Entries, Kept, Moved, ApplyOne, AddressId, Split;
    ghost var addresses := record.addresses;
    card.AdrGeoParamsToProperties(valid);
    forall i | 0 <= i < |ids| ensures card.adrs[i] == Bare(ids)[i] { ClearedIsBare(ids, coords, i); }
    assert card.adrs == Bare(ids);
    card.geos := Wired(escaped, card.geos);
    assert [] + Moved(valid, Written(ids, coords)) == Moved(valid, Written(ids, coords));
    assert card.geos == Returned(valid, escaped, ids, coords);
    var byAdr, byId, ordered := card.TakeGeoCoordinates(valid);
    assert card.adrs == Bare(ids);
    GetThenPut(valid, escaped, ids, coords, addresses);
    ApplyGeoCoordinates(record, byAdr, byId, ordered);
    forall i | 0 <= i < |ids|
      ensures record.addresses[i] == addresses[i].(coordinates := Normalize(valid, coords[i]))
    {
      OnlyCoordinatesChange(addresses[i], i, byAdr, byId, ordered);
    }
  }

  lemma OnlyCoordinatesChange(a: Address, i: nat, byAdr: map<nat, string>, byId: map<string, string>,
                              ordered: seq<string>)
    ensures ApplyOne(a, i, byAdr, byId, ordered).id == a.id
  {
  }
}
