/** The legacy vCard mapper: emails, phones, addresses and URLs, each with a type label, exported to a
    card and imported again.  Standard labels travel as TYPE parameters; any other label travels in an
    X-ABLabel property that shares a generated group with its value. */
module VCardMapper {
  import opened Prelude
  import opened VCardComponents

  const EMAIL := "EMAIL"
  const TEL := "TEL"
  const ADR := "ADR"
  const URL := "URL"
  const ABLABEL := "X-ABLabel"

  /** A vCard field; types is its TYPE parameter. */
  datatype Field = Field(value: string, group: string, types: seq<string>)

  type Card = map<string, seq<Field>>

  function FieldsOf(card: Card, name: string): seq<Field> {
    if name in card then card[name] else []
  }

  /** card.Add */
  function AddField(card: Card, name: string, f: Field): Card {
    card[name := FieldsOf(card, name) + [f]]
  }

  datatype Entry = Entry(tag: string, value: string)

  datatype Address = Address(tag: string, street: string, city: string, region: string, postal: string, country: string)

  /** The typed lists of a contact, the legacy scalars beside them, and the unmapped properties kept from imports. */
  datatype Contact = Contact(
    emails: seq<Entry>, phones: seq<Entry>, addresses: seq<Address>, urls: seq<Entry>,
    email: string, phone: string, address: string,
    extra: seq<(string, Field)>)

  /** standardTypeTokens */
  predicate IsStandardType(low: string) {
    || low == "home" || low == "work" || low == "cell" || low == "mobile"
    || low == "fax" || low == "voice" || low == "pager" || low == "other"
  }

  predicate IsCustomType(t: string) {
    var low := ToLower(TrimSpace(t));
    low != "" && !IsStandardType(low)
  }

  function TypeTokens(t: string): seq<string> {
    var up := ToUpper(TrimSpace(t));
    if up == "" then [] else if up == "CELL" || up == "MOBILE" then ["CELL", "VOICE"] else [up]
  }

  /** normalizeLabel: Apple's pseudo-labels back to plain words.  The slice is in bounds because the two
      markers cannot overlap. */
  function NormalizeLabel(tag: string): string {
    if HasPrefix(tag, "_$!<") && HasSuffix(tag, ">!$_") then
      assert |tag| >= 8 by { MarkersDoNotOverlap(tag); }
      var inner := ToLower(tag[4..|tag| - 4]);
      if inner == "mobile" then "cell" else inner
    else tag
  }

  lemma MarkersDoNotOverlap(tag: string)
    requires HasPrefix(tag, "_$!<") && HasSuffix(tag, ">!$_")
    ensures |tag| >= 8
  {
    assert tag[..4][3] == '<' && tag[..4][2] == '!' && tag[..4][1] == '$' && tag[..4][0] == '_';
    assert tag[|tag| - 4..][0] == '>' == tag[|tag| - 4];
  }

  /** The token a TYPE value stands for, if it is not a transport or preference marker. */
  function Meaningful(token: string): Option<string> {
    var u := ToUpper(TrimSpace(token));
    if u == "" || u == "INTERNET" || u == "VOICE" || u == "PREF" then None
    else if u == "CELL" || u == "MOBILE" then Some("cell")
    else Some(ToLower(u))
  }

  function FirstMeaningful(tokens: seq<string>): Option<string> {
    if tokens == [] then None
    else if Meaningful(tokens[0]).Some? then Meaningful(tokens[0])
    else FirstMeaningful(tokens[1..])
  }

  /** typeFromField */
  function TypeFromTypes(types: seq<string>): string {
    if types == [] then ""
    else
      match FirstMeaningful(Split(types[0], ','))
      case Some(t) => t
      case None => TypeFromTypes(types[1..])
  }

  /** labelFromGroup over the X-ABLabel fields. */
  function LabelIn(labels: seq<Field>, group: string): string {
    if labels == [] then ""
    else if EqualFold(labels[0].group, group) then TrimSpace(labels[0].value)
    else LabelIn(labels[1..], group)
  }

  function TypeUnder(labels: seq<Field>, f: Field): string {
    var tag := if f.group == "" then "" else LabelIn(labels, f.group);
    if tag != "" then NormalizeLabel(tag) else TypeFromTypes(f.types)
  }

  /** typeForField */
  function TypeForField(card: Card, f: Field): string {
    TypeUnder(FieldsOf(card, ABLABEL), f)
  }

  // ----- Export -----

  /** The card under construction and the counter behind the generated group names. */
  datatype CardDraft = CardDraft(card: Card, counter: nat)

  function GroupName(n: nat): string {
    "item" + Itoa(n)
  }

  /** addTypedField */
  function AddTyped(d: CardDraft, name: string, e: Entry, bases: seq<string>): CardDraft {
    if IsCustomType(e.tag) then
      var group := GroupName(d.counter + 1);
      CardDraft(AddField(AddField(d.card, name, Field(e.value, group, bases)),
                     ABLABEL, Field(TrimSpace(e.tag), group, [])), d.counter + 1)
    else
      d.(card := AddField(d.card, name, Field(e.value, "", bases + TypeTokens(e.tag))))
  }

  function AddAll(d: CardDraft, name: string, entries: seq<Entry>, bases: seq<string>): CardDraft
    decreases |entries|
  {
    if entries == [] then d else AddAll(AddTyped(d, name, entries[0], bases), name, entries[1..], bases)
  }

  /** The entries with a value, in order. */
  function Present(entries: seq<Entry>): seq<Entry> {
    if entries == [] then []
    else (if entries[0].value == "" then [] else [entries[0]]) + Present(entries[1..])
  }

  predicate IsEmptyAddress(a: Address) {
    TrimSpace(a.street + a.city + a.region + a.postal + a.country) == ""
  }

  /** The ADR value: POBox;Extended;Street;Locality;Region;Postal;Country. */
  function AddressEntry(a: Address): Entry {
    Entry(a.tag, Join(EscapeAll(["", "", a.street, a.city, a.region, a.postal, a.country]), ";"))
  }

  /** The addresses with content, in order. */
  function PresentAddresses(addresses: seq<Address>): seq<Address> {
    if addresses == [] then []
    else (if IsEmptyAddress(addresses[0]) then [] else [addresses[0]]) + PresentAddresses(addresses[1..])
  }

  /** The ADR fields to write for a list of addresses. */
  function AddressEntries(addresses: seq<Address>): seq<Entry> {
    if addresses == [] then []
    else (if IsEmptyAddress(addresses[0]) then [] else [AddressEntry(addresses[0])]) + AddressEntries(addresses[1..])
  }

  /** The lists as exported: the legacy scalar stands in for an empty list. */
  function ExportedEmails(c: Contact): seq<Entry> {
    if c.emails == [] && c.email != "" then [Entry("home", c.email)] else c.emails
  }

  function ExportedPhones(c: Contact): seq<Entry> {
    if c.phones == [] && c.phone != "" then [Entry("cell", c.phone)] else c.phones
  }

  function ExportedAddresses(c: Contact): seq<Address> {
    if c.addresses == [] && c.address != "" then [Address("home", c.address, "", "", "", "")] else c.addresses
  }

  const MAPPED := {
    "VERSION", "UID", "FN", "N", "NICKNAME", EMAIL, TEL, ADR, "BDAY", "GENDER", "CATEGORIES", "ORG", "PHOTO",
    URL, "IMPP", "TITLE", "ROLE", "ANNIVERSARY", ABLABEL}

  function AddExtra(card: Card, extra: seq<(string, Field)>): Card
    decreases |extra|
  {
    if extra == [] then card
    else AddExtra(if extra[0].0 in MAPPED then card else AddField(card, extra[0].0, extra[0].1), extra[1..])
  }

  /** Four lists written one after the other; EMAIL, the first, always carries INTERNET. */
  function Drafted(first: string, second: string, third: string, fourth: string,
                   a: seq<Entry>, b: seq<Entry>, c: seq<Entry>, d: seq<Entry>): CardDraft {
    var d1 := AddAll(CardDraft(map[], 0), first, a, ["INTERNET"]);
    var d2 := AddAll(d1, second, b, []);
    var d3 := AddAll(d2, third, c, []);
    AddAll(d3, fourth, d, [])
  }

  function Exported(c: Contact): Card {
    AddExtra(Drafted(EMAIL, TEL, ADR, URL, Present(ExportedEmails(c)), Present(ExportedPhones(c)),
                     AddressEntries(ExportedAddresses(c)), Present(c.urls)).card, c.extra)
  }

  class Exporter {
    var card: Card
    var groupCounter: nat

    constructor ()
      ensures Draft() == CardDraft(map[], 0)
    {
      card, groupCounter := map[], 0;
    }

    function Draft(): CardDraft
      reads this
    {
      CardDraft(card, groupCounter)
    }

    method Add(name: string, f: Field)
      modifies this`card
      ensures card == AddField(old(card), name, f)
    {
      card := card[name := (if name in card then card[name] else []) + [f]];
    }

    method AddTypedField(name: string, value: string, t: string, bases: seq<string>)
      modifies this
      ensures Draft() == AddTyped(old(Draft()), name, Entry(t, value), bases)
    {
      hide IsCustomType, TypeTokens, TrimSpace, Itoa;
      if IsCustomType(t) {
        groupCounter := groupCounter + 1;
        var group := "item" + Itoa(groupCounter);
        Add(name, Field(value, group, bases));
        Add(ABLABEL, Field(TrimSpace(t), group, []));
        return;
      }
      Add(name, Field(value, "", bases + TypeTokens(t)));
    }

    method AddEntries(name: string, entries: seq<Entry>, bases: seq<string>)
      modifies this
      ensures Draft() == AddAll(old(Draft()), name, Present(entries), bases)
    {
      for k := 0 to |entries|
        invariant AddAll(Draft(), name, Present(entries[k..]), bases)
          == AddAll(old(Draft()), name, Present(entries), bases)
      {
        ghost var rest := Present(entries[k + 1..]);
        assert entries[k..][1..] == entries[k + 1..];
        if entries[k].value != "" {
          assert ([entries[k]] + rest)[1..] == rest;
          AddTypedField(name, entries[k].value, entries[k].tag, bases);
        } else {
          assert [] + rest == rest;
        }
      }
    }

    method AddAddresses(addresses: seq<Address>)
      modifies this
      ensures Draft() == AddAll(old(Draft()), ADR, AddressEntries(addresses), [])
    {
      for k := 0 to |addresses|
        invariant AddAll(Draft(), ADR, AddressEntries(addresses[k..]), [])
          == AddAll(old(Draft()), ADR, AddressEntries(addresses), [])
      {
        ghost var rest := AddressEntries(addresses[k + 1..]);
        assert addresses[k..][1..] == addresses[k + 1..];
        if !IsEmptyAddress(addresses[k]) {
          var e := AddressEntry(addresses[k]);
          assert ([e] + rest)[1..] == rest;
          AddTypedField(ADR, e.value, e.tag, []);
        } else {
          assert [] + rest == rest;
        }
      }
    }

    method RestoreExtra(extra: seq<(string, Field)>)
      modifies this`card
      ensures card == AddExtra(old(card), extra)
    {
      for k := 0 to |extra|
        invariant AddExtra(card, extra[k..]) == AddExtra(old(card), extra)
      {
        assert extra[k..][1..] == extra[k + 1..];
        var (name, field) := extra[k];
        if name !in MAPPED { Add(name, field); }
      }
    }

    /** ContactToVCard, as far as the typed lists and the restored properties go. */
    method ContactToVCard(c: Contact)
      requires card == map[] && groupCounter == 0
      modifies this
      ensures card == Exported(c)
    {
      var emails := c.emails;
      if |emails| == 0 && c.email != "" { emails := [Entry("home", c.email)]; }
      AddEntries(EMAIL, emails, ["INTERNET"]);
      var phones := c.phones;
      if |phones| == 0 && c.phone != "" { phones := [Entry("cell", c.phone)]; }
      AddEntries(TEL, phones, []);
      var addresses := c.addresses;
      if |addresses| == 0 && c.address != "" { addresses := [Address("home", c.address, "", "", "", "")]; }
      AddAddresses(addresses);
      AddEntries(URL, c.urls, []);
      RestoreExtra(c.extra);
    }
  }

  // ----- Import -----

  /** labelFromGroup */
  method LabelFromGroup(labels: seq<Field>, f: Field) returns (text: string)
    ensures text == if f.group == "" then "" else LabelIn(labels, f.group)
  {
    if f.group == "" { return ""; }
    for k := 0 to |labels|
      invariant LabelIn(labels, f.group) == LabelIn(labels[k..], f.group)
    {
      if EqualFold(labels[k].group, f.group) { return TrimSpace(labels[k].value); }
    }
    return "";
  }

  /** typeFromField */
  method TypeFromField(f: Field) returns (t: string)
    ensures t == TypeFromTypes(f.types)
  {
    for i := 0 to |f.types|
      invariant TypeFromTypes(f.types) == TypeFromTypes(f.types[i..])
    {
      assert f.types[i..][1..] == f.types[i + 1..];
      var tokens := Split(f.types[i], ',');
      for k := 0 to |tokens|
        invariant FirstMeaningful(tokens) == FirstMeaningful(tokens[k..])
      {
        var u := ToUpper(TrimSpace(tokens[k]));
        if u == "" || u == "INTERNET" || u == "VOICE" || u == "PREF" { continue; }
        if u == "CELL" || u == "MOBILE" { return "cell"; }
        return ToLower(u);
      }
    }
    return "";
  }

  function ReadEntries(card: Card, fields: seq<Field>): seq<Entry> {
    if fields == [] then []
    else
      (if fields[0].value == "" then [] else [Entry(TypeForField(card, fields[0]), fields[0].value)]) +
      ReadEntries(card, fields[1..])
  }

  function Component(comps: seq<string>, i: nat): string {
    if i < |comps| then comps[i] else ""
  }

  function NonEmpty(values: seq<string>): seq<string> {
    if values == [] then []
    else (if TrimSpace(values[0]) != "" then [values[0]] else []) + NonEmpty(values[1..])
  }

  function ReadAddress(card: Card, f: Field): Address {
    var comps := Scan(f.value, "");
    Address(TypeForField(card, f),
            TrimSpace(Join(NonEmpty([Component(comps, 2), Component(comps, 1)]), " ")),
            Component(comps, 3), Component(comps, 4), Component(comps, 5), Component(comps, 6))
  }

  /** The address of one ADR field, unless it is empty. */
  function ReadPresentAddress(card: Card, f: Field): seq<Address> {
    var a := ReadAddress(card, f);
    if IsEmptyAddress(a) then [] else [a]
  }

  function ReadAddresses(card: Card, fields: seq<Field>): seq<Address> {
    if fields == [] then [] else ReadPresentAddress(card, fields[0]) + ReadAddresses(card, fields[1..])
  }

  /** VCardToContact on the typed lists: a list is replaced when the card has the property at all. */
  function Imported(card: Card, c: Contact, format: Address -> string): Contact {
    var emails := if FieldsOf(card, EMAIL) == [] then c.emails else ReadEntries(card, FieldsOf(card, EMAIL));
    var phones := if FieldsOf(card, TEL) == [] then c.phones else ReadEntries(card, FieldsOf(card, TEL));
    var addresses := if FieldsOf(card, ADR) == [] then c.addresses else ReadAddresses(card, FieldsOf(card, ADR));
    var urls := if FieldsOf(card, URL) == [] then c.urls else ReadEntries(card, FieldsOf(card, URL));
    c.(emails := emails, phones := phones, addresses := addresses, urls := urls,
       email := if FieldsOf(card, EMAIL) != [] && emails != [] then emails[0].value else c.email,
       phone := if FieldsOf(card, TEL) != [] && phones != [] then phones[0].value else c.phone,
       address := if FieldsOf(card, ADR) != [] && addresses != [] then format(addresses[0]) else c.address)
  }

  lemma ReadEntriesStep(card: Card, fields: seq<Field>, k: nat, done: seq<Entry>)
    requires k < |fields|
    ensures var f := fields[k];
      done + ReadEntries(card, fields[k..]) ==
        done + (if f.value == "" then [] else [Entry(TypeForField(card, f), f.value)])
          + ReadEntries(card, fields[k + 1..])
  {
    hide TypeForField;
    assert fields[k..][1..] == fields[k + 1..];
  }

  lemma ReadAddressesStep(card: Card, fields: seq<Field>, k: nat, done: seq<Address>)
    requires k < |fields|
    ensures done + ReadAddresses(card, fields[k..]) ==
      done + ReadPresentAddress(card, fields[k]) + ReadAddresses(card, fields[k + 1..])
  {
    hide ReadPresentAddress;
    assert fields[k..][1..] == fields[k + 1..];
  }

  class Importer {
    var contact: Contact

    constructor (existing: Contact)
      ensures contact == existing
    {
      contact := existing;
    }

    method ReadTypedList(card: Card, name: string) returns (entries: seq<Entry>)
      ensures entries == ReadEntries(card, FieldsOf(card, name))
    {
      hide TypeForField;
      var fields := FieldsOf(card, name);
      entries := [];
      for k := 0 to |fields|
        invariant entries + ReadEntries(card, fields[k..]) == ReadEntries(card, fields)
      {
        ReadEntriesStep(card, fields, k, entries);
        if fields[k].value == "" { continue; }
        var t := ReadType(card, fields[k]);
        entries := entries + [Entry(t, fields[k].value)];
      }
    }

    /** typeForField */
    method ReadType(card: Card, f: Field) returns (t: string)
      ensures t == TypeForField(card, f)
    {
      hide TypeFromTypes, LabelIn, NormalizeLabel;
      var text := LabelFromGroup(FieldsOf(card, ABLABEL), f);
      if text != "" { return NormalizeLabel(text); }
      t := TypeFromField(f);
    }

    method ReadAddressList(card: Card) returns (addresses: seq<Address>)
      ensures addresses == ReadAddresses(card, FieldsOf(card, ADR))
    {
      var fields := FieldsOf(card, ADR);
      addresses := [];
      for k := 0 to |fields|
        invariant addresses + ReadAddresses(card, fields[k..]) == ReadAddresses(card, fields)
      {
        var present := ReadAddressField(card, fields[k]);
        ReadAddressesStep(card, fields, k, addresses);
        addresses := addresses + present;
      }
    }

    method ReadAddressField(card: Card, f: Field) returns (present: seq<Address>)
      ensures present == ReadPresentAddress(card, f)
    {
      var comps := SplitComponents(f.value);
      var t := ReadType(card, f);
      var ca := Address(t,
                        TrimSpace(Join(NonEmpty([Component(comps, 2), Component(comps, 1)]), " ")),
                        Component(comps, 3), Component(comps, 4), Component(comps, 5), Component(comps, 6));
      if IsEmptyAddress(ca) { return []; }
      return [ca];
    }

    /** VCardToContact, updating the contact in place. */
    method VCardToContact(card: Card, format: Address -> string)
      modifies this
      ensures contact == Imported(card, old(contact), format)
    {
      hide ReadEntries, ReadAddresses;
      if FieldsOf(card, EMAIL) != [] {
        var emails := ReadTypedList(card, EMAIL);
        contact := contact.(emails := emails);
        if emails != [] { contact := contact.(email := emails[0].value); }
      }
      if FieldsOf(card, TEL) != [] {
        var phones := ReadTypedList(card, TEL);
        contact := contact.(phones := phones);
        if phones != [] { contact := contact.(phone := phones[0].value); }
      }
      if FieldsOf(card, ADR) != [] {
        var addresses := ReadAddressList(card);
        contact := contact.(addresses := addresses);
        if addresses != [] { contact := contact.(address := format(addresses[0])); }
      }
      if FieldsOf(card, URL) != [] {
        var urls := ReadTypedList(card, URL);
        contact := contact.(urls := urls);
      }
    }
  }

  // ----- A label comes back in its canonical form -----

  /** The form in which a type label survives a round trip.  The words with a meaning of their own are recognised
      by their upper case, so a standard word spelled with a dotted capital I comes back as the plain word. */
  function Canonical(t: string): string {
    var low, up := ToLower(TrimSpace(t)), ToUpper(TrimSpace(t));
    if IsCustomType(t) then NormalizeLabel(TrimSpace(t))
    else if low == "" || up == "VOICE" then ""
    else if up == "CELL" || up == "MOBILE" then "cell"
    else low
  }

  /** A standard label in plain ASCII letters comes back in lower case, mobile as cell and voice as nothing. */
  lemma CanonicalOfAscii(t: string)
    requires !IsCustomType(t) && forall i :: 0 <= i < |TrimSpace(t)| ==> TrimSpace(t)[i] as int < 128
    ensures var low := ToLower(TrimSpace(t));
      Canonical(t) == if low == "voice" then "" else if low == "mobile" then "cell" else low
  {
    hide TrimSpace, NormalizeLabel;
    var x := TrimSpace(t);
    AsciiWord(x, "VOICE", "voice");
    AsciiWord(x, "CELL", "cell");
    AsciiWord(x, "MOBILE", "mobile");
  }

  /** In ASCII, upper and lower case name the same word. */
  lemma AsciiWord(s: string, upper: string, lower: string)
    requires |upper| == |lower| && forall i :: 0 <= i < |s| ==> s[i] as int < 128
    requires forall i :: 0 <= i < |upper| ==> 'A' <= upper[i] <= 'Z' && lower[i] == upper[i] - 'A' + 'a'
    ensures ToUpper(s) == upper <==> ToLower(s) == lower
  {
    hide LowerChar, UpperChar;
    forall i | 0 <= i < |s| && i < |upper| ensures ToUpper(s)[i] == upper[i] <==> ToLower(s)[i] == lower[i] {
      AsciiLetter(s[i], upper[i]);
    }
  }

  lemma AsciiLetter(c: char, u: char)
    requires c as int < 128 && 'A' <= u <= 'Z'
    ensures UpperChar(c) == u <==> LowerChar(c) == u - 'A' + 'a'
  {
  }

  /** A TYPE value without a comma is one token. */
  lemma OneToken(token: string)
    requires ',' !in token
    ensures FirstMeaningful(Split(token, ',')) == Meaningful(token)
  {
    assert Cut(token, ',').None?;
    assert Split(token, ',') == [token];
  }

  /** A standard label is spelled in characters whose lower cases are ASCII letters. */
  lemma StandardIsLetterLike(t: string)
    requires !IsCustomType(t)
    ensures forall i :: 0 <= i < |TrimSpace(t)| ==> IsLetterLike(TrimSpace(t)[i])
  {
    hide TrimSpace, LowerChar;
    var x := TrimSpace(t);
    var low := ToLower(x);
    if low != "" { StandardIsTrimmed(low); }
    forall i | 0 <= i < |x| ensures IsLetterLike(x[i]) { assert low[i] == LowerChar(x[i]); }
  }

  /** An upper-case token without outer white space means itself. */
  lemma MeaningfulOf(u: string)
    requires Trimmed(u) && ToUpper(u) == u
    ensures Meaningful(u) == if u == "" || u == "INTERNET" || u == "VOICE" || u == "PREF" then None
                             else if u == "CELL" || u == "MOBILE" then Some("cell")
                             else Some(ToLower(u))
  {
    TrimSpaceFixes(u);
  }

  lemma CapitalsStand(u: string)
    requires forall i :: 0 <= i < |u| ==> 'A' <= u[i] <= 'Z'
    ensures ',' !in u && Trimmed(u) && ToUpper(u) == u
  {
  }

  lemma MeaningfulInternet()
    ensures FirstMeaningful(Split("INTERNET", ',')) == None
  {
    CapitalsStand("INTERNET");
    OneToken("INTERNET");
    MeaningfulOf("INTERNET");
  }

  lemma MeaningfulCell()
    ensures FirstMeaningful(Split("CELL", ',')) == Some("cell")
  {
    CapitalsStand("CELL");
    OneToken("CELL");
    MeaningfulOf("CELL");
  }

  lemma StandardTokensComeBack(t: string)
    requires !IsCustomType(t)
    ensures TypeFromTypes(TypeTokens(t)) == Canonical(t)
  {
    hide TrimSpace, ToLower, ToUpper, Meaningful, NormalizeLabel, Split, IsStandardType;
    var up := ToUpper(TrimSpace(t));
    if up == "CELL" || up == "MOBILE" {
      MeaningfulCell();
    } else if up != "" {
      StandardIsLetterLike(t);
      LetterLikeWord(TrimSpace(t));
      OneToken(up);
      MeaningfulStandard(t);
      assert [up][1..] == [];
    }
  }

  /** What a standard label other than cell and mobile means when read as a TYPE value. */
  lemma MeaningfulStandard(t: string)
    requires !IsCustomType(t) && ToUpper(TrimSpace(t)) != ""
    requires ToUpper(TrimSpace(t)) != "CELL" && ToUpper(TrimSpace(t)) != "MOBILE"
    ensures Meaningful(ToUpper(TrimSpace(t))) == if Canonical(t) == "" then None else Some(Canonical(t))
  {
    hide TrimSpace, LowerChar, UpperChar, NormalizeLabel;
    var x := TrimSpace(t);
    StandardIsLetterLike(t);
    LetterLikeWord(x);
    MeaningfulOf(ToUpper(x));
    StandardIsNoMarker(x);
  }

  lemma StandardIsNoMarker(x: string)
    requires IsStandardType(ToLower(x)) && ToLower(ToUpper(x)) == ToLower(x)
    ensures ToUpper(x) != "INTERNET" && ToUpper(x) != "PREF"
  {
    var low := ToLower(x);
    assert ToLower("PREF")[0] == 'p';
    assert |low| <= 6 && (|low| == 4 ==> low[0] != 'p');
  }

  /** The TYPE values written for a standard label read back as its canonical form, with or without INTERNET. */
  lemma StandardComesBack(t: string, bases: seq<string>)
    requires !IsCustomType(t) && (bases == [] || bases == ["INTERNET"])
    ensures TypeFromTypes(bases + TypeTokens(t)) == Canonical(t)
  {
    StandardTokensComeBack(t);
    InternetIsIgnored(TypeTokens(t));
    if bases == [] { assert bases + TypeTokens(t) == TypeTokens(t); }
  }

  lemma InternetIsIgnored(tokens: seq<string>)
    ensures TypeFromTypes(["INTERNET"] + tokens) == TypeFromTypes(tokens)
  {
    MeaningfulInternet();
    assert (["INTERNET"] + tokens)[1..] == tokens;
  }

  // ----- Each generated group names one entry -----

  /** The labels on a draft are exactly the groups handed out so far, in order. */
  predicate GroupsInStep(d: CardDraft) {
    var labels := FieldsOf(d.card, ABLABEL);
    && |labels| == d.counter
    && forall i :: 0 <= i < |labels| ==> labels[i].group == GroupName(i + 1)
  }

  lemma GroupNameIsFolded(n: nat)
    ensures ToFold(GroupName(n)) == GroupName(n)
  {
    var digits := Itoa(n);
    assert forall i :: 0 <= i < |digits| ==> FoldChar(digits[i]) == digits[i];
    var low := ToFold(GroupName(n));
    assert "item"[0] == 'i' && "item"[1] == 't' && "item"[2] == 'e' && "item"[3] == 'm';
    assert forall i :: 0 <= i < |low| ==> low[i] == GroupName(n)[i];
  }

  /** Distinct numbers give group names that differ even ignoring case. */
  lemma GroupNamesDiffer(m: nat, n: nat)
    requires EqualFold(GroupName(m), GroupName(n))
    ensures m == n
  {
    GroupNameIsFolded(m);
    GroupNameIsFolded(n);
    assert Itoa(m) == GroupName(m)[4..] && Itoa(n) == GroupName(n)[4..];
    ItoaInjective(m, n);
  }

  lemma {:induction false} LabelSkips(labels: seq<Field>, last: Field, group: string)
    requires forall i :: 0 <= i < |labels| ==> !EqualFold(labels[i].group, group)
    ensures LabelIn(labels + [last], group) == LabelIn([last], group)
  {
    if labels == [] {
      assert labels + [last] == [last];
    } else {
      assert (labels + [last])[0] == labels[0] && (labels + [last])[1..] == labels[1..] + [last];
      LabelSkips(labels[1..], last, group);
    }
  }

  /** A label that is found stays found, and stays the same, when labels are appended. */
  lemma {:induction false} LabelStays(labels: seq<Field>, more: seq<Field>, group: string)
    requires LabelIn(labels, group) != ""
    ensures LabelIn(labels + more, group) == LabelIn(labels, group)
  {
    assert (labels + more)[0] == labels[0] && (labels + more)[1..] == labels[1..] + more;
    if !EqualFold(labels[0].group, group) {
      LabelStays(labels[1..], more, group);
    }
  }

  lemma OnlyLabel(f: Field)
    ensures LabelIn([f], f.group) == TrimSpace(f.value)
  {
    hide ToFold, TrimSpace;
  }

  /** The label just added is the one its group finds. */
  lemma NewLabelIsFound(labels: seq<Field>, value: string)
    requires forall i :: 0 <= i < |labels| ==> labels[i].group == GroupName(i + 1)
    ensures LabelIn(labels + [Field(value, GroupName(|labels| + 1), [])], GroupName(|labels| + 1)) == TrimSpace(value)
  {
    hide EqualFold, GroupName, LabelIn, TrimSpace;
    var group := GroupName(|labels| + 1);
    forall i | 0 <= i < |labels| ensures !EqualFold(labels[i].group, group) {
      if EqualFold(labels[i].group, group) { GroupNamesDiffer(i + 1, |labels| + 1); }
    }
    LabelSkips(labels, Field(value, group, []), group);
    OnlyLabel(Field(value, group, []));
  }

  // ----- What a list of fields carries -----

  /** Under these labels, and any appended later, the field reads as the entry with its label in canonical form. */
  predicate Carries(labels: seq<Field>, f: Field, e: Entry) {
    && f.value == e.value
    && (f.group == "" || LabelIn(labels, f.group) != "")
    && TypeUnder(labels, f) == Canonical(e.tag)
  }

  predicate CarriesAll(labels: seq<Field>, fields: seq<Field>, entries: seq<Entry>) {
    && |fields| == |entries|
    && forall i :: 0 <= i < |fields| ==> Carries(labels, fields[i], entries[i])
  }

  lemma CarriesStays(labels: seq<Field>, more: seq<Field>, f: Field, e: Entry)
    requires Carries(labels, f, e)
    ensures Carries(labels + more, f, e)
  {
    if f.group != "" { LabelStays(labels, more, f.group); }
  }

  lemma CarriesAllStays(labels: seq<Field>, longer: seq<Field>, fields: seq<Field>, entries: seq<Entry>)
    requires labels <= longer && CarriesAll(labels, fields, entries)
    ensures CarriesAll(longer, fields, entries)
  {
    assert longer == labels + longer[|labels|..];
    forall i | 0 <= i < |fields| ensures Carries(longer, fields[i], entries[i]) {
      CarriesStays(labels, longer[|labels|..], fields[i], entries[i]);
    }
  }

  /** A custom label written under the next group carries the entry. */
  lemma CustomCarries(labels: seq<Field>, e: Entry, bases: seq<string>)
    requires IsCustomType(e.tag)
    requires forall i :: 0 <= i < |labels| ==> labels[i].group == GroupName(i + 1)
    ensures var group := GroupName(|labels| + 1);
            Carries(labels + [Field(TrimSpace(e.tag), group, [])], Field(e.value, group, bases), e)
  {
    NewLabelIsFound(labels, TrimSpace(e.tag));
    TrimSpaceIdempotent(e.tag);
    CustomHasText(e.tag);
  }

  lemma CustomHasText(t: string)
    requires IsCustomType(t)
    ensures TrimSpace(t) != "" && Canonical(t) == NormalizeLabel(TrimSpace(t))
  {
  }

  lemma StandardCarries(labels: seq<Field>, e: Entry, bases: seq<string>)
    requires !IsCustomType(e.tag) && (bases == [] || bases == ["INTERNET"])
    ensures Carries(labels, Field(e.value, "", bases + TypeTokens(e.tag)), e)
  {
    StandardComesBack(e.tag, bases);
  }

  ghost predicate OnlyTouches(before: Card, after: Card, name: string) {
    && FieldsOf(before, ABLABEL) <= FieldsOf(after, ABLABEL)
    && forall other :: other != name && other != ABLABEL ==> FieldsOf(after, other) == FieldsOf(before, other)
  }

  lemma AddTypedCarries(d: CardDraft, name: string, e: Entry, bases: seq<string>, done: seq<Entry>)
    requires GroupsInStep(d) && name != ABLABEL && (bases == [] || bases == ["INTERNET"])
    requires CarriesAll(FieldsOf(d.card, ABLABEL), FieldsOf(d.card, name), done)
    ensures var d' := AddTyped(d, name, e, bases);
            && GroupsInStep(d') && OnlyTouches(d.card, d'.card, name)
            && CarriesAll(FieldsOf(d'.card, ABLABEL), FieldsOf(d'.card, name), done + [e])
  {
    hide Carries, IsCustomType, TypeTokens, TrimSpace, GroupName;
    var d' := AddTyped(d, name, e, bases);
    var labels, labels' := FieldsOf(d.card, ABLABEL), FieldsOf(d'.card, ABLABEL);
    CarriesAllStays(labels, labels', FieldsOf(d.card, name), done);
    if IsCustomType(e.tag) {
      CustomCarries(labels, e, bases);
    } else {
      StandardCarries(labels, e, bases);
    }
  }

  /** Adding a list of entries leaves fields that carry exactly them, in order, and disturbs no other property. */
  lemma {:induction false} AddAllCarries(d: CardDraft, name: string, entries: seq<Entry>, bases: seq<string>,
                                         done: seq<Entry>)
    requires GroupsInStep(d) && name != ABLABEL && (bases == [] || bases == ["INTERNET"])
    requires CarriesAll(FieldsOf(d.card, ABLABEL), FieldsOf(d.card, name), done)
    ensures var d' := AddAll(d, name, entries, bases);
            && GroupsInStep(d') && OnlyTouches(d.card, d'.card, name)
            && CarriesAll(FieldsOf(d'.card, ABLABEL), FieldsOf(d'.card, name), done + entries)
    decreases |entries|
  {
    hide Carries, GroupsInStep, AddTyped;
    if entries == [] {
      assert done + entries == done;
    } else {
      var d1 := AddTyped(d, name, entries[0], bases);
      AddTypedCarries(d, name, entries[0], bases, done);
      AddAllCarries(d1, name, entries[1..], bases, done + [entries[0]]);
      assert done + [entries[0]] + entries[1..] == done + entries;
      OnlyTouchesChains(d.card, d1.card, AddAll(d1, name, entries[1..], bases).card, name);
    }
  }

  lemma OnlyTouchesChains(a: Card, b: Card, c: Card, name: string)
    requires OnlyTouches(a, b, name) && OnlyTouches(b, c, name)
    ensures OnlyTouches(a, c, name)
  {
  }

  /** A list written while others come before and after it is still carried at the end. */
  lemma CarriesSurvives(before: Card, after: Card, name: string, other: string, entries: seq<Entry>)
    requires OnlyTouches(before, after, name) && other != name && other != ABLABEL
    requires CarriesAll(FieldsOf(before, ABLABEL), FieldsOf(before, other), entries)
    ensures CarriesAll(FieldsOf(after, ABLABEL), FieldsOf(after, other), entries)
  {
    CarriesAllStays(FieldsOf(before, ABLABEL), FieldsOf(after, ABLABEL), FieldsOf(before, other), entries);
  }

  lemma EmptyInStep()
    ensures GroupsInStep(CardDraft(map[], 0))
  {
  }

  lemma FourLists(first: string, second: string, third: string, fourth: string,
                  a: seq<Entry>, b: seq<Entry>, c: seq<Entry>, d: seq<Entry>)
    requires first != second && first != third && first != fourth && second != third && second != fourth
    requires third != fourth
    requires ABLABEL != first && ABLABEL != second && ABLABEL != third && ABLABEL != fourth
    ensures var card := Drafted(first, second, third, fourth, a, b, c, d).card;
            var labels := FieldsOf(card, ABLABEL);
            && CarriesAll(labels, FieldsOf(card, first), a)
            && CarriesAll(labels, FieldsOf(card, second), b)
            && CarriesAll(labels, FieldsOf(card, third), c)
            && CarriesAll(labels, FieldsOf(card, fourth), d)
  {
    hide CarriesAll, GroupsInStep, AddAll;
    EmptyInStep();
    var d0 := CardDraft(map[], 0);
    var d1 := AddAll(d0, first, a, ["INTERNET"]);
    var d2 := AddAll(d1, second, b, []);
    var d3 := AddAll(d2, third, c, []);
    var d4 := AddAll(d3, fourth, d, []);
    ListAdded(d0, first, a, ["INTERNET"]);
    ListAdded(d1, second, b, []);
    CarriesSurvives(d1.card, d2.card, second, first, a);
    ListAdded(d2, third, c, []);
    CarriesSurvives(d2.card, d3.card, third, first, a);
    CarriesSurvives(d2.card, d3.card, third, second, b);
    ListAdded(d3, fourth, d, []);
    CarriesSurvives(d3.card, d4.card, fourth, first, a);
    CarriesSurvives(d3.card, d4.card, fourth, second, b);
    CarriesSurvives(d3.card, d4.card, fourth, third, c);
  }

  /** One whole list added to a property that was absent. */
  lemma ListAdded(d: CardDraft, name: string, entries: seq<Entry>, bases: seq<string>)
    requires GroupsInStep(d) && name != ABLABEL && (bases == [] || bases == ["INTERNET"])
    requires FieldsOf(d.card, name) == []
    ensures var d' := AddAll(d, name, entries, bases);
            && GroupsInStep(d') && OnlyTouches(d.card, d'.card, name)
            && CarriesAll(FieldsOf(d'.card, ABLABEL), FieldsOf(d'.card, name), entries)
  {
    AddAllCarries(d, name, entries, bases, []);
    assert [] + entries == entries;
  }

  lemma {:induction false} ExtraLeavesMapped(card: Card, extra: seq<(string, Field)>, name: string)
    requires name in MAPPED
    ensures FieldsOf(AddExtra(card, extra), name) == FieldsOf(card, name)
    decreases |extra|
  {
    if extra != [] {
      ExtraLeavesMapped(if extra[0].0 in MAPPED then card else AddField(card, extra[0].0, extra[0].1),
          extra[1..], name);
    }
  }

  /** The fields of the four typed properties on an exported card carry what was exported. */
  lemma ExportCarries(c: Contact)
    ensures var card := Exported(c);
            var labels := FieldsOf(card, ABLABEL);
            && CarriesAll(labels, FieldsOf(card, EMAIL), Present(ExportedEmails(c)))
            && CarriesAll(labels, FieldsOf(card, TEL), Present(ExportedPhones(c)))
            && CarriesAll(labels, FieldsOf(card, ADR), AddressEntries(ExportedAddresses(c)))
            && CarriesAll(labels, FieldsOf(card, URL), Present(c.urls))
  {
    var emails, phones := Present(ExportedEmails(c)), Present(ExportedPhones(c));
    var addresses, urls := AddressEntries(ExportedAddresses(c)), Present(c.urls);
    NamesDiffer();
    FourLists(EMAIL, TEL, ADR, URL, emails, phones, addresses, urls);
    var d4 := Drafted(EMAIL, TEL, ADR, URL, emails, phones, addresses, urls);
    assert Exported(c) == AddExtra(d4.card, c.extra);
    ExtraLeavesMapped(d4.card, c.extra, EMAIL);
    ExtraLeavesMapped(d4.card, c.extra, TEL);
    ExtraLeavesMapped(d4.card, c.extra, ADR);
    ExtraLeavesMapped(d4.card, c.extra, URL);
    ExtraLeavesMapped(d4.card, c.extra, ABLABEL);
  }

  lemma NamesDiffer()
    ensures EMAIL != TEL && EMAIL != ADR && EMAIL != URL && TEL != ADR && TEL != URL && ADR != URL
    ensures EMAIL != ABLABEL && TEL != ABLABEL && ADR != ABLABEL && URL != ABLABEL
  {
    assert EMAIL[0] == 'E' && TEL[0] == 'T' && ADR[0] == 'A' && URL[0] == 'U' && ABLABEL[0] == 'X';
  }

  // ----- INTERNET on every email -----

  predicate AllStartWith(fields: seq<Field>, bases: seq<string>) {
    forall i :: 0 <= i < |fields| ==> bases <= fields[i].types
  }

  lemma {:induction false} AddAllKeepsBases(d: CardDraft, name: string, entries: seq<Entry>, bases: seq<string>)
    requires name != ABLABEL && AllStartWith(FieldsOf(d.card, name), bases)
    ensures AllStartWith(FieldsOf(AddAll(d, name, entries, bases).card, name), bases)
    decreases |entries|
  {
    hide IsCustomType, TypeTokens, GroupName, TrimSpace;
    if entries != [] { AddAllKeepsBases(AddTyped(d, name, entries[0], bases), name, entries[1..], bases); }
  }

  lemma FirstListKeepsBases(first: string, second: string, third: string, fourth: string,
                            a: seq<Entry>, b: seq<Entry>, c: seq<Entry>, d: seq<Entry>)
    requires first != second && first != third && first != fourth && second != third && second != fourth
    requires third != fourth
    requires ABLABEL != first && ABLABEL != second && ABLABEL != third && ABLABEL != fourth
    ensures AllStartWith(FieldsOf(Drafted(first, second, third, fourth, a, b, c, d).card, first), ["INTERNET"])
  {
    hide CarriesAll, GroupsInStep, AddAll, AllStartWith;
    EmptyInStep();
    var d0 := CardDraft(map[], 0);
    var d1 := AddAll(d0, first, a, ["INTERNET"]);
    var d2 := AddAll(d1, second, b, []);
    var d3 := AddAll(d2, third, c, []);
    assert AllStartWith(FieldsOf(d0.card, first), ["INTERNET"]) by { NoFieldsStart(["INTERNET"]); }
    AddAllKeepsBases(d0, first, a, ["INTERNET"]);
    ListAdded(d0, first, a, ["INTERNET"]);
    ListAdded(d1, second, b, []);
    ListAdded(d2, third, c, []);
    ListAdded(d3, fourth, d, []);
  }

  lemma NoFieldsStart(bases: seq<string>)
    ensures AllStartWith([], bases)
  {
  }

  /** Every exported EMAIL carries INTERNET first, whatever its label. */
  lemma EmailsCarryInternet(c: Contact)
    ensures forall i :: 0 <= i < |FieldsOf(Exported(c), EMAIL)| ==>
      ["INTERNET"] <= FieldsOf(Exported(c), EMAIL)[i].types
  {
    hide Drafted;
    var emails, phones := Present(ExportedEmails(c)), Present(ExportedPhones(c));
    var addresses, urls := AddressEntries(ExportedAddresses(c)), Present(c.urls);
    NamesDiffer();
    FirstListKeepsBases(EMAIL, TEL, ADR, URL, emails, phones, addresses, urls);
    ExtraLeavesMapped(Drafted(EMAIL, TEL, ADR, URL, emails, phones, addresses, urls).card, c.extra, EMAIL);
  }

  // ----- The round trip -----

  function CanonicalEntries(entries: seq<Entry>): seq<Entry> {
    seq(|entries|, i requires 0 <= i < |entries| => Entry(Canonical(entries[i].tag), entries[i].value))
  }

  /** The form in which an address survives: the street trimmed, the label canonical. */
  function CanonicalAddress(a: Address): Address {
    a.(tag := Canonical(a.tag), street := TrimSpace(a.street))
  }

  function CanonicalAddresses(addresses: seq<Address>): seq<Address> {
    seq(|addresses|, i requires 0 <= i < |addresses| => CanonicalAddress(addresses[i]))
  }

  lemma {:induction false} PresentHaveValues(entries: seq<Entry>)
    ensures forall i :: 0 <= i < |Present(entries)| ==> Present(entries)[i].value != ""
  {
    if entries != [] { PresentHaveValues(entries[1..]); }
  }

  lemma {:induction false} CarriedReadsBack(card: Card, fields: seq<Field>, entries: seq<Entry>)
    requires CarriesAll(FieldsOf(card, ABLABEL), fields, entries)
    requires forall i :: 0 <= i < |entries| ==> entries[i].value != ""
    ensures ReadEntries(card, fields) == CanonicalEntries(entries)
    decreases |fields|
  {
    hide Canonical, TypeUnder;
    if fields != [] {
      assert Carries(FieldsOf(card, ABLABEL), fields[0], entries[0]);
      assert entries == [entries[0]] + entries[1..];
      CarriesHead(FieldsOf(card, ABLABEL), fields, entries[0], entries[1..]);
      CarriedReadsBack(card, fields[1..], entries[1..]);
      assert CanonicalEntries(entries) ==
          [Entry(Canonical(entries[0].tag), entries[0].value)] + CanonicalEntries(entries[1..]);
    }
  }

  /** The scanned components of a written address are the address. */
  lemma AddressComponents(a: Address)
    ensures Scan(AddressEntry(a).value, "") == ["", "", a.street, a.city, a.region, a.postal, a.country]
  {
    SplitUndoesJoin(["", "", a.street, a.city, a.region, a.postal, a.country]);
  }

  lemma StreetComesBack(street: string)
    ensures TrimSpace(Join(NonEmpty([street, ""]), " ")) == TrimSpace(street)
  {
    assert [street, ""][1..] == [""] && [""][1..] == [];
    assert TrimSpace("") == "";
    assert NonEmpty([""]) == [];
    TrimSpaceBlank(street);
  }

  lemma ConcatBlank(a: Address)
    ensures IsEmptyAddress(a) <==>
      Blank(a.street) && Blank(a.city) && Blank(a.region) && Blank(a.postal) && Blank(a.country)
  {
    TrimSpaceBlank(a.street + a.city + a.region + a.postal + a.country);
    BlankConcat(a.street + a.city + a.region + a.postal, a.country);
    BlankConcat(a.street + a.city + a.region, a.postal);
    BlankConcat(a.street + a.city, a.region);
    BlankConcat(a.street, a.city);
  }

  lemma BlankConcat(s: string, t: string)
    ensures Blank(s + t) <==> Blank(s) && Blank(t)
  {
    if Blank(s + t) {
      forall i | 0 <= i < |s| ensures IsSpace(s[i]) { assert IsSpace((s + t)[i]); }
      forall i | 0 <= i < |t| ensures IsSpace(t[i]) { assert IsSpace((s + t)[|s| + i]); }
    }
  }

  /** Trimming the street does not make an address empty. */
  lemma CanonicalStaysPresent(a: Address)
    ensures IsEmptyAddress(CanonicalAddress(a)) <==> IsEmptyAddress(a)
  {
    ConcatBlank(a);
    ConcatBlank(CanonicalAddress(a));
    TrimSpaceBlank(a.street);
  }

  lemma AddressReadsBack(card: Card, f: Field, a: Address)
    requires Carries(FieldsOf(card, ABLABEL), f, AddressEntry(a)) && !IsEmptyAddress(a)
    ensures ReadPresentAddress(card, f) == [CanonicalAddress(a)]
  {
    AddressComponents(a);
    StreetComesBack(a.street);
    CanonicalStaysPresent(a);
    assert ReadAddress(card, f) == CanonicalAddress(a);
  }

  lemma {:induction false} AddressesReadBack(card: Card, fields: seq<Field>, addresses: seq<Address>)
    requires CarriesAll(FieldsOf(card, ABLABEL), fields, AddressEntries(addresses))
    ensures ReadAddresses(card, fields) == CanonicalAddresses(PresentAddresses(addresses))
    decreases |addresses|
  {
    hide Carries, IsEmptyAddress, ReadPresentAddress, AddressEntry, CanonicalAddress;
    if addresses != [] {
      if IsEmptyAddress(addresses[0]) {
        AddressesReadBack(card, fields, addresses[1..]);
      } else {
        AddressEntriesStep(addresses);
        CarriesHead(FieldsOf(card, ABLABEL), fields, AddressEntry(addresses[0]), AddressEntries(addresses[1..]));
        AddressReadsBack(card, fields[0], addresses[0]);
        AddressesReadBack(card, fields[1..], addresses[1..]);
        PrependCanonical(addresses[0], PresentAddresses(addresses[1..]));
      }
    }
  }

  lemma AddressEntriesStep(addresses: seq<Address>)
    requires addresses != [] && !IsEmptyAddress(addresses[0])
    ensures AddressEntries(addresses) == [AddressEntry(addresses[0])] + AddressEntries(addresses[1..])
  {
  }

  lemma CarriesHead(labels: seq<Field>, fields: seq<Field>, e: Entry, rest: seq<Entry>)
    requires CarriesAll(labels, fields, [e] + rest)
    ensures fields != [] && Carries(labels, fields[0], e) && CarriesAll(labels, fields[1..], rest)
  {
    hide Carries;
    assert ([e] + rest)[0] == e;
    forall i | 0 <= i < |rest| ensures Carries(labels, fields[1..][i], rest[i]) {
      assert ([e] + rest)[i + 1] == rest[i];
    }
  }

  lemma PrependCanonical(a: Address, rest: seq<Address>)
    ensures CanonicalAddresses([a] + rest) == [CanonicalAddress(a)] + CanonicalAddresses(rest)
  {
  }

  /** Exporting a contact and importing the card over any contact gives every non-empty entry back, in order,
      with its value and with the canonical form of its own label; an empty list comes back as its legacy scalar, if
      there is one; and a list with nothing to export leaves the existing one alone. */
  lemma RoundTrip(c: Contact, existing: Contact, format: Address -> string)
    ensures var r := Imported(Exported(c), existing, format);
            var emails := Present(if c.emails == [] && c.email != "" then [Entry("home", c.email)] else c.emails);
            var phones := Present(if c.phones == [] && c.phone != "" then [Entry("cell", c.phone)] else c.phones);
            var urls := Present(c.urls);
            var addresses := PresentAddresses(if c.addresses == [] && c.address != ""
              then [Address("home", c.address, "", "", "", "")] else c.addresses);
            && r.emails == (if emails == [] then existing.emails else CanonicalEntries(emails))
            && r.phones == (if phones == [] then existing.phones else CanonicalEntries(phones))
            && r.urls == (if urls == [] then existing.urls else CanonicalEntries(urls))
            && r.addresses == (if addresses == [] then existing.addresses else CanonicalAddresses(addresses))
            && r.email == (if emails == [] then existing.email else emails[0].value)
            && r.phone == (if phones == [] then existing.phone else phones[0].value)
            && r.address == (if addresses == [] then existing.address else format(CanonicalAddress(addresses[0])))
  {
    ExportCarries(c);
    PresentHaveValues(ExportedEmails(c));
    PresentHaveValues(ExportedPhones(c));
    PresentHaveValues(c.urls);
    CarriedImports(Exported(c), existing, format, Present(ExportedEmails(c)), Present(ExportedPhones(c)),
                   ExportedAddresses(c), Present(c.urls));
  }

  /** What an import makes of a card whose typed properties carry these lists. */
  lemma CarriedImports(card: Card, existing: Contact, format: Address -> string,
                       emails: seq<Entry>, phones: seq<Entry>, written: seq<Address>, urls: seq<Entry>)
    requires CarriesAll(FieldsOf(card, ABLABEL), FieldsOf(card, EMAIL), emails)
    requires CarriesAll(FieldsOf(card, ABLABEL), FieldsOf(card, TEL), phones)
    requires CarriesAll(FieldsOf(card, ABLABEL), FieldsOf(card, ADR), AddressEntries(written))
    requires CarriesAll(FieldsOf(card, ABLABEL), FieldsOf(card, URL), urls)
    requires forall i :: 0 <= i < |emails| ==> emails[i].value != ""
    requires forall i :: 0 <= i < |phones| ==> phones[i].value != ""
    requires forall i :: 0 <= i < |urls| ==> urls[i].value != ""
    ensures var r, addresses := Imported(card, existing, format), PresentAddresses(written);
            && r.emails == (if emails == [] then existing.emails else CanonicalEntries(emails))
            && r.phones == (if phones == [] then existing.phones else CanonicalEntries(phones))
            && r.urls == (if urls == [] then existing.urls else CanonicalEntries(urls))
            && r.addresses == (if addresses == [] then existing.addresses else CanonicalAddresses(addresses))
            && r.email == (if emails == [] then existing.email else emails[0].value)
            && r.phone == (if phones == [] then existing.phone else phones[0].value)
            && r.address == (if addresses == [] then existing.address else format(CanonicalAddress(addresses[0])))
  {
    hide Carries, ReadEntries, ReadAddresses, CanonicalAddress, PresentAddresses, AddressEntries;
    CarriedReadsBack(card, FieldsOf(card, EMAIL), emails);
    CarriedReadsBack(card, FieldsOf(card, TEL), phones);
    CarriedReadsBack(card, FieldsOf(card, URL), urls);
    AddressesReadBack(card, FieldsOf(card, ADR), written);
    AddressEntriesCount(written);
  }

  lemma {:induction false} AddressEntriesCount(addresses: seq<Address>)
    ensures |AddressEntries(addresses)| == |PresentAddresses(addresses)|
  {
    if addresses != [] { AddressEntriesCount(addresses[1..]); }
  }

  // ----- Canonical labels -----

  predicate IsPseudoLabel(tag: string) {
    HasPrefix(tag, "_$!<") && HasSuffix(tag, ">!$_")
  }

  lemma TrimSpaceShortens(s: string)
    ensures |TrimSpace(s)| <= |s| && (TrimSpace(s) == s <==> Trimmed(s))
    ensures |TrimSpace(s)| == |s| ==> TrimSpace(s) == s
  {
    TrimSpaceTrims(s);
    if Trimmed(s) { TrimSpaceFixes(s); }
  }

  lemma NormalizeShortens(tag: string)
    ensures |NormalizeLabel(tag)| <= |tag| && (NormalizeLabel(tag) == tag <==> !IsPseudoLabel(tag))
  {
    hide ToLower;
    if IsPseudoLabel(tag) { MarkersDoNotOverlap(tag); }
  }

  /** A lower-case word with this upper case is the plain word. */
  lemma PlainWord(c: string, upper: string, lower: string)
    requires ToLower(c) == c && ToUpper(c) == upper && |upper| == |lower|
    requires forall i :: 0 <= i < |c| ==> IsLetterLike(c[i])
    requires forall i :: 0 <= i < |upper| ==> 'A' <= upper[i] <= 'Z' && lower[i] == upper[i] - 'A' + 'a'
    ensures c == lower
  {
    forall i | 0 <= i < |c| ensures c[i] == lower[i] {
      assert ToLower(c)[i] == c[i] && ToUpper(c)[i] == upper[i];
    }
  }

  /** The labels that a round trip leaves alone. */
  lemma FixedLabels(c: string)
    ensures Canonical(c) == c <==>
      Trimmed(c) && (if IsCustomType(c) then !IsPseudoLabel(c) else ToLower(c) == c && c != "voice" && c != "mobile")
  {
    hide TrimSpace, ToLower, ToUpper, NormalizeLabel, IsPseudoLabel, Trimmed, IsStandardType;
    var x := TrimSpace(c);
    TrimSpaceShortens(c);
    NormalizeShortens(x);
    if !IsCustomType(c) {
      StandardIsLetterLike(c);
      if x == c { FixedStandard(c); } else { CanonicalShortens(c); }
    }
  }

  lemma CanonicalShortens(t: string)
    requires !IsCustomType(t)
    ensures |Canonical(t)| <= |TrimSpace(t)|
  {
    hide TrimSpace, NormalizeLabel, LowerChar, UpperChar;
  }

  lemma FixedStandard(c: string)
    requires !IsCustomType(c) && TrimSpace(c) == c && forall i :: 0 <= i < |c| ==> IsLetterLike(c[i])
    ensures Canonical(c) == c <==> ToLower(c) == c && c != "voice" && c != "mobile"
  {
    hide TrimSpace, ToLower, NormalizeLabel, IsLetterLike, ToUpper, IsStandardType;
    StandardWordsUpper();
    if ToLower(c) == c {
      if ToUpper(c) == "VOICE" { PlainWord(c, "VOICE", "voice"); }
      if ToUpper(c) == "CELL" { PlainWord(c, "CELL", "cell"); }
      if ToUpper(c) == "MOBILE" { PlainWord(c, "MOBILE", "mobile"); }
    }
  }

  lemma StandardWordsUpper()
    ensures ToUpper("voice") == "VOICE" && ToUpper("mobile") == "MOBILE" && ToUpper("cell") == "CELL"
    ensures ToLower("voice") == "voice" && ToLower("mobile") == "mobile" && ToLower("cell") == "cell"
    ensures ToLower("") == ""
  {
  }

  /** Further round trips leave a label that came back once as it is exactly when it has no outer white space, is no
      pseudo-label, and is not one of the two standard words that mean something else. */
  lemma CanonicalSettles(t: string)
    ensures var c := Canonical(t);
      Canonical(c) == c <==> Trimmed(c) && !IsPseudoLabel(c) && c != "voice" && c != "mobile"
  {
    hide TrimSpace, ToLower, ToUpper, NormalizeLabel, IsPseudoLabel, Trimmed, IsStandardType, Canonical;
    var c := Canonical(t);
    FixedLabels(c);
    if IsCustomType(c) {
      CustomIsNeither(c);
    } else {
      WordsAreNoPseudoLabels(c);
      if Trimmed(c) { CanonicalIsLower(t); }
    }
  }

  lemma CustomIsNeither(c: string)
    requires IsCustomType(c)
    ensures c != "voice" && c != "mobile"
  {
    hide TrimSpace, ToLower, ToUpper;
    StandardWordsUpper();
    TrimSpaceFixes("voice");
    TrimSpaceFixes("mobile");
  }

  lemma WordsAreNoPseudoLabels(c: string)
    requires !IsCustomType(c)
    ensures Trimmed(c) ==> !IsPseudoLabel(c)
  {
    hide LowerChar, IsStandardType;
    if Trimmed(c) {
      TrimSpaceFixes(c);
      StandardIsLetterLike(c);
      if IsPseudoLabel(c) {
        assert c[..4][0] == '_' && IsLetterLike(c[0]);
        assert !IsLetterLike('_') by { UnderscoreIsNoLetter(); }
        assert false;
      }
    }
  }

  lemma UnderscoreIsNoLetter()
    ensures !IsLetterLike('_')
  {
  }

  /** A canonical label that is a standard word is in lower case. */
  lemma CanonicalIsLower(t: string)
    requires !IsCustomType(Canonical(t)) && Trimmed(Canonical(t))
    ensures ToLower(Canonical(t)) == Canonical(t)
  {
    hide TrimSpace, LowerChar, UpperChar, NormalizeLabel, IsStandardType;
    var c := Canonical(t);
    TrimSpaceShortens(c);
    StandardIsLetterLike(c);
    StandardWordsUpper();
    if IsCustomType(t) {
      var x := TrimSpace(t);
      TrimSpaceIdempotent(t);
      if IsPseudoLabel(x) {
        PseudoIsLower(x);
      } else {
        NormalizeShortens(x);
        assert c == x;
      }
    } else {
      if c == ToLower(TrimSpace(t)) { LowerTwice(TrimSpace(t), c); }
    }
  }

  lemma PseudoIsLower(tag: string)
    requires IsPseudoLabel(tag) && forall i :: 0 <= i < |NormalizeLabel(tag)| ==> IsLetterLike(NormalizeLabel(tag)[i])
    ensures ToLower(NormalizeLabel(tag)) == NormalizeLabel(tag)
  {
    hide LowerChar, IsLetterLike;
    MarkersDoNotOverlap(tag);
    StandardWordsUpper();
    if NormalizeLabel(tag) != "cell" { LowerTwice(tag[4..|tag| - 4], NormalizeLabel(tag)); }
  }

  /** Lower-casing twice is lower-casing once on words spelled in letters. */
  lemma LowerTwice(s: string, low: string)
    requires low == ToLower(s) && forall i :: 0 <= i < |low| ==> IsLetterLike(low[i])
    ensures ToLower(low) == low
  {
    hide LowerChar;
    forall i | 0 <= i < |s| ensures LowerChar(low[i]) == low[i] {
      assert low[i] == LowerChar(s[i]);
      LowerLetter(s[i]);
    }
  }

  lemma LowerLetter(c: char)
    requires IsLetterLike(LowerChar(c))
    ensures LowerChar(LowerChar(c)) == LowerChar(c)
  {
  }

  lemma {:induction false} StandardIsTrimmed(low: string)
    requires IsStandardType(low)
    ensures Trimmed(low) && low != "" && forall i :: 0 <= i < |low| ==> 'a' <= low[i] <= 'z'
  {
    assert |low| >= 3 && 'a' <= low[0] <= 'z' && 'a' <= low[|low| - 1] <= 'z';
  }

  /** A pseudo-label can change again on a second trip: the inner word is then read as a standard one. */
  lemma PseudoVoiceFades()
    ensures Canonical("_$!<Voice>!$_") == "voice" && Canonical("voice") == ""
  {
    hide NormalizeLabel, TrimSpace;
    TrimSpaceFixes("_$!<Voice>!$_");
    TrimSpaceFixes("voice");
    PseudoVoiceIsCustom();
    VoiceIsLower();
    PseudoVoiceInner();
  }

  lemma PseudoVoiceIsCustom()
    ensures var low := ToLower("_$!<Voice>!$_"); low != "" && !IsStandardType(low)
  {
    assert |ToLower("_$!<Voice>!$_")| == 13;
  }

  lemma VoiceIsLower()
    ensures ToLower("Voice") == "voice" && ToLower("voice") == "voice"
  {
  }

  lemma PseudoVoiceInner()
    ensures NormalizeLabel("_$!<Voice>!$_") == "voice"
  {
    hide ToLower;
    var p := "_$!<Voice>!$_";
    VoiceIsLower();
    assert p[4..|p| - 4] == "Voice";
    assert p[..4] == "_$!<" && p[|p| - 4..] == ">!$_";
  }

  // ----- The two directions, spelled out -----

  /** The entries with a value: all of them, one by one, in order. */
  lemma {:induction false} PresentOf(a: seq<Entry>, tag: string, value: string)
    ensures Present(a + [Entry(tag, value)]) == if value == "" then Present(a) else Present(a) + [Entry(tag, value)]
    ensures Present([]) == []
  {
    var last := Entry(tag, value);
    if a == [] {
      assert a + [last] == [last] && [last][1..] == [];
    } else {
      PresentOf(a[1..], tag, value);
      assert (a + [last])[0] == a[0] && (a + [last])[1..] == a[1..] + [last];
    }
  }

  /** Likewise the addresses in which something is no white space. */
  lemma {:induction false} PresentAddressesOf(a: seq<Address>, last: Address)
    ensures PresentAddresses(a + [last]) ==
      if Blank(last.street) && Blank(last.city) && Blank(last.region) && Blank(last.postal) && Blank(last.country)
      then PresentAddresses(a) else PresentAddresses(a) + [last]
    ensures PresentAddresses([]) == []
  {
    hide IsEmptyAddress, Blank;
    ConcatBlank(last);
    if a == [] {
      assert a + [last] == [last] && [last][1..] == [];
    } else {
      PresentAddressesOf(a[1..], last);
      assert (a + [last])[0] == a[0] && (a + [last])[1..] == a[1..] + [last];
    }
  }

  /** Any other label than these words is a custom one. */
  lemma CustomMeaning(t: string)
    ensures var words := ["", "home", "work", "cell", "mobile", "fax", "voice", "pager", "other"];
      IsCustomType(t) <==> ToLower(TrimSpace(t)) !in words
  {
    hide ToLower, TrimSpace;
  }

  /** A standard label becomes one upper-case TYPE value, but a cell phone two. */
  lemma StandardTokens(t: string)
    requires t in ["home", "work", "cell", "mobile", "fax", "voice", "pager", "other"]
    ensures !IsCustomType(t) && TypeTokens("") == []
    ensures TypeTokens(t) == if t == "cell" || t == "mobile" then ["CELL", "VOICE"] else [ToUpper(t)]
    ensures ToUpper("home") == "HOME"
  {
    hide ToLower, ToUpper, TrimSpace;
    StandardIsTrimmed(t);
    TrimSpaceFixes(t);
    TrimSpaceFixes("");
    assert ToUpper("") == "";
    AsciiWord(t, "CELL", "cell");
    AsciiWord(t, "MOBILE", "mobile");
    StandardIsLower(t);
    assert ToUpper("home") == "HOME" by { HomeInCapitals(); }
  }

  lemma StandardIsLower(t: string)
    requires IsStandardType(t)
    ensures ToLower(t) == t && ToUpper(t) != ""
  {
    StandardIsTrimmed(t);
  }

  lemma HomeInCapitals()
    ensures ToUpper("home") == "HOME"
  {
  }

  /** The field written for a standard label, and the two for a custom one. */
  lemma FieldsWritten(d: CardDraft, name: string, e: Entry, bases: seq<string>)
    requires name != "X-ABLabel"
    ensures var d' := AddTyped(d, name, e, bases);
      if IsCustomType(e.tag) then
        var group := "item" + Itoa(d.counter + 1);
        && d'.counter == d.counter + 1
        && FieldsOf(d'.card, name) == FieldsOf(d.card, name) + [Field(e.value, group, bases)]
        && FieldsOf(d'.card, "X-ABLabel") == FieldsOf(d.card, "X-ABLabel") + [Field(TrimSpace(e.tag), group, [])]
      else
        && d'.counter == d.counter && FieldsOf(d'.card, "X-ABLabel") == FieldsOf(d.card, "X-ABLabel")
        && FieldsOf(d'.card, name) == FieldsOf(d.card, name) + [Field(e.value, "", bases + TypeTokens(e.tag))]
  {
    hide IsCustomType, TypeTokens, TrimSpace, Itoa;
  }

  lemma OneStandardEntry(d: CardDraft, name: string, e: Entry, bases: seq<string>)
    requires !IsCustomType(e.tag) && name != ABLABEL && FieldsOf(d.card, name) == []
    ensures FieldsOf(AddAll(d, name, [e], bases).card, name) == [Field(e.value, "", bases + TypeTokens(e.tag))]
  {
    hide IsCustomType, TypeTokens;
    assert [e][1..] == [];
    FieldsWritten(d, name, e, bases);
    assert AddAll(d, name, [e], bases) == AddAll(AddTyped(d, name, e, bases), name, [], bases);
  }

  /** The fields of each of the four properties are those its own list has added. */
  lemma ListsApart(first: string, second: string, third: string, fourth: string,
                   a: seq<Entry>, b: seq<Entry>, c: seq<Entry>, d: seq<Entry>)
    returns (d1: CardDraft, d2: CardDraft, d3: CardDraft)
    requires first != second && first != third && first != fourth && second != third && second != fourth
    requires third != fourth
    requires ABLABEL != first && ABLABEL != second && ABLABEL != third && ABLABEL != fourth
    ensures FieldsOf(d1.card, second) == [] && FieldsOf(d2.card, third) == [] && FieldsOf(d3.card, fourth) == []
    ensures var card := Drafted(first, second, third, fourth, a, b, c, d).card;
      && FieldsOf(card, first) == FieldsOf(AddAll(CardDraft(map[], 0), first, a, ["INTERNET"]).card, first)
      && FieldsOf(card, second) == FieldsOf(AddAll(d1, second, b, []).card, second)
      && FieldsOf(card, third) == FieldsOf(AddAll(d2, third, c, []).card, third)
      && FieldsOf(card, fourth) == FieldsOf(AddAll(d3, fourth, d, []).card, fourth)
  {
    hide CarriesAll, GroupsInStep, AddAll;
    EmptyInStep();
    var d0 := CardDraft(map[], 0);
    d1 := AddAll(d0, first, a, ["INTERNET"]);
    d2 := AddAll(d1, second, b, []);
    d3 := AddAll(d2, third, c, []);
    ListAdded(d0, first, a, ["INTERNET"]);
    ListAdded(d1, second, b, []);
    ListAdded(d2, third, c, []);
    ListAdded(d3, fourth, d, []);
  }

  lemma PropertiesApart(c: Contact) returns (d1: CardDraft, d2: CardDraft, d3: CardDraft)
    ensures FieldsOf(d1.card, TEL) == [] && FieldsOf(d2.card, ADR) == [] && FieldsOf(d3.card, URL) == []
    ensures var card := Exported(c);
      && FieldsOf(card, EMAIL) ==
           FieldsOf(AddAll(CardDraft(map[], 0), EMAIL, Present(ExportedEmails(c)), ["INTERNET"]).card, EMAIL)
      && FieldsOf(card, TEL) == FieldsOf(AddAll(d1, TEL, Present(ExportedPhones(c)), []).card, TEL)
      && FieldsOf(card, ADR) == FieldsOf(AddAll(d2, ADR, AddressEntries(ExportedAddresses(c)), []).card, ADR)
  {
    hide Drafted, AddAll, ExportedEmails, ExportedPhones, ExportedAddresses;
    var emails, phones := Present(ExportedEmails(c)), Present(ExportedPhones(c));
    var addresses, urls := AddressEntries(ExportedAddresses(c)), Present(c.urls);
    NamesDiffer();
    d1, d2, d3 := ListsApart(EMAIL, TEL, ADR, URL, emails, phones, addresses, urls);
    var d4 := Drafted(EMAIL, TEL, ADR, URL, emails, phones, addresses, urls);
    ExtraLeavesMapped(d4.card, c.extra, EMAIL);
    ExtraLeavesMapped(d4.card, c.extra, TEL);
    ExtraLeavesMapped(d4.card, c.extra, ADR);
  }

  lemma OnePresent(tag: string, value: string)
    requires value != ""
    ensures Present([Entry(tag, value)]) == [Entry(tag, value)]
  {
    PresentOf([], tag, value);
    assert [] + [Entry(tag, value)] == [Entry(tag, value)];
  }

  /** A contact with a legacy e-mail address and no list: one EMAIL, which comes back as a home address. */
  lemma LegacyEmail(c: Contact, existing: Contact, format: Address -> string)
    requires c.emails == [] && c.email != ""
    ensures FieldsOf(Exported(c), "EMAIL") == [Field(c.email, "", ["INTERNET", "HOME"])]
    ensures var r := Imported(Exported(c), existing, format); r.emails == [Entry("home", c.email)] && r.email == c.email
  {
    hide Exported, AddAll, Present, TypeTokens, IsCustomType, Canonical, Imported, ToUpper;
    var d1, d2, d3 := PropertiesApart(c);
    OnePresent("home", c.email);
    StandardTokens("home");
    OneStandardEntry(CardDraft(map[], 0), EMAIL, Entry("home", c.email), ["INTERNET"]) by { NamesDiffer(); }
    assert ["INTERNET"] + ["HOME"] == ["INTERNET", "HOME"];
    LegacyEmailReads(c, existing, format);
  }

  lemma LegacyEmailReads(c: Contact, existing: Contact, format: Address -> string)
    requires c.emails == [] && c.email != ""
    ensures var r := Imported(Exported(c), existing, format); r.emails == [Entry("home", c.email)] && r.email == c.email
  {
    hide Exported, Present, Canonical, Imported, PresentAddresses, CanonicalAddress;
    OnePresent("home", c.email);
    PlainWordsStand();
    RoundTrip(c, existing, format);
  }

  /** A contact with a legacy phone number and no list: one TEL of type cell, which comes back as that. */
  lemma LegacyPhone(c: Contact, existing: Contact, format: Address -> string)
    requires c.phones == [] && c.phone != ""
    ensures FieldsOf(Exported(c), "TEL") == [Field(c.phone, "", ["CELL", "VOICE"])]
    ensures var r := Imported(Exported(c), existing, format); r.phones == [Entry("cell", c.phone)] && r.phone == c.phone
  {
    hide Exported, AddAll, Present, TypeTokens, IsCustomType, Canonical, Imported;
    var d1, d2, d3 := PropertiesApart(c);
    OnePresent("cell", c.phone);
    StandardTokens("cell");
    OneStandardEntry(d1, TEL, Entry("cell", c.phone), []) by { NamesDiffer(); }
    assert [] + ["CELL", "VOICE"] == ["CELL", "VOICE"];
    LegacyPhoneReads(c, existing, format);
  }

  lemma LegacyPhoneReads(c: Contact, existing: Contact, format: Address -> string)
    requires c.phones == [] && c.phone != ""
    ensures var r := Imported(Exported(c), existing, format); r.phones == [Entry("cell", c.phone)] && r.phone == c.phone
  {
    hide Exported, Present, Canonical, Imported, PresentAddresses, CanonicalAddress;
    OnePresent("cell", c.phone);
    PlainWordsStand();
    RoundTrip(c, existing, format);
  }

  lemma PlainWordsStand()
    ensures Canonical("home") == "home" && Canonical("cell") == "cell"
  {
    hide ToLower, ToUpper, IsCustomType, Canonical, TrimSpace, NormalizeLabel, TypeTokens, IsPseudoLabel;
    assert Trimmed("home") && Trimmed("cell");
    FixedLabels("home");
    FixedLabels("cell");
    StandardTokens("home");
    StandardTokens("cell");
    StandardIsLower("home");
    StandardIsLower("cell");
  }

  /** A contact with a legacy address and no list: one ADR of type home with that street, which comes back trimmed. */
  lemma LegacyAddress(c: Contact, existing: Contact, format: Address -> string)
    requires c.addresses == [] && !Blank(c.address)
    ensures FieldsOf(Exported(c), "ADR") == [Field(";;" + EscapeComponent(c.address) + ";;;;", "", ["HOME"])]
    ensures Imported(Exported(c), existing, format).addresses ==
      [Address("home", TrimSpace(c.address), "", "", "", "")]
  {
    hide Exported, AddAll, TypeTokens, IsCustomType, Imported, AddressEntry, ToUpper, TrimSpace, Blank;
    hide PresentAddresses;
    var d1, d2, d3 := PropertiesApart(c);
    var a := Address("home", c.address, "", "", "", "");
    ConcatBlank(a);
    PresentAddressesOf([], a);
    assert [] + [a] == [a];
    assert [a][1..] == [] && AddressEntries([a]) == [AddressEntry(a)] + AddressEntries([]) == [AddressEntry(a)];
    StandardTokens("home");
    StreetOnly(c.address);
    assert c.address != "" by { BlankNothing(); }
    assert AddressEntry(a).tag == "home" by { AddressTag(a); }
    OneStandardEntry(d2, ADR, AddressEntry(a), []) by { NamesDiffer(); }
    assert [] + ["HOME"] == ["HOME"];
    LegacyAddressReads(c, existing, format);
  }

  lemma LegacyAddressReads(c: Contact, existing: Contact, format: Address -> string)
    requires c.addresses == [] && !Blank(c.address)
    ensures Imported(Exported(c), existing, format).addresses ==
      [Address("home", TrimSpace(c.address), "", "", "", "")]
  {
    hide Exported, Present, Canonical, Imported, TrimSpace, IsEmptyAddress, Blank;
    var a := Address("home", c.address, "", "", "", "");
    PresentAddressesOf([], a);
    assert [] + [a] == [a];
    assert c.address != "" by { BlankNothing(); }
    PlainWordsStand();
    RoundTrip(c, existing, format);
  }

  lemma BlankNothing()
    ensures Blank("")
  {
  }

  lemma AddressTag(a: Address)
    ensures AddressEntry(a).tag == a.tag
  {
  }

  lemma StreetOnly(street: string)
    ensures AddressEntry(Address("home", street, "", "", "", "")).value == ";;" + EscapeComponent(street) + ";;;;"
  {
    hide EscapeComponent;
    assert EscapeComponent("") == "" by { NothingToEscape(); }
    var e := EscapeComponent(street);
    assert EscapeAll(["", "", street, "", "", "", ""]) == ["", "", e, "", "", "", ""];
    JoinSeven("", "", e, "", "", "", "");
  }

  lemma NothingToEscape()
    ensures EscapeComponent("") == ""
  {
  }

  lemma JoinSeven(a: string, b: string, c: string, d: string, e: string, f: string, g: string)
    ensures Join([a, b, c, d, e, f, g], ";") ==
      a + ";" + b + ";" + c + ";" + d + ";" + e + ";" + f + ";" + g
  {
    assert [a, b, c, d, e, f, g][1..] == [b, c, d, e, f, g] && [b, c, d, e, f, g][1..] == [c, d, e, f, g];
    assert [c, d, e, f, g][1..] == [d, e, f, g] && [d, e, f, g][1..] == [e, f, g] && [e, f, g][1..] == [f, g];
    assert [f, g][1..] == [g] && Join([f, g], ";") == f + ";" + g;
    assert Join([e, f, g], ";") == e + ";" + Join([f, g], ";");
    assert Join([d, e, f, g], ";") == d + ";" + Join([e, f, g], ";");
    assert Join([c, d, e, f, g], ";") == c + ";" + Join([d, e, f, g], ";");
    assert Join([b, c, d, e, f, g], ";") == b + ";" + Join([c, d, e, f, g], ";");
  }

  /** With neither list nor scalar there is no property, and the import keeps what it finds. */
  lemma NothingToExport(c: Contact, existing: Contact, format: Address -> string)
    ensures c.emails == [] && c.email == "" ==>
      FieldsOf(Exported(c), "EMAIL") == [] && Imported(Exported(c), existing, format).emails == existing.emails
    ensures c.phones == [] && c.phone == "" ==>
      FieldsOf(Exported(c), "TEL") == [] && Imported(Exported(c), existing, format).phones == existing.phones
    ensures c.addresses == [] && c.address == "" ==>
      FieldsOf(Exported(c), "ADR") == [] && Imported(Exported(c), existing, format).addresses == existing.addresses
  {
    hide Exported, Imported, Canonical;
    var d1, d2, d3 := PropertiesApart(c);
    RoundTrip(c, existing, format);
  }

  /** A list that is there stands for itself, whatever the scalar beside it. */
  lemma ScalarIsIgnored(c: Contact, email: string, phone: string, address: string)
    requires c.emails != [] && c.phones != [] && c.addresses != []
    ensures Exported(c.(email := email, phone := phone, address := address)) == Exported(c)
  {
    hide Drafted, AddExtra;
  }

  // ----- Reading fields of other clients -----

  /** The first token of the TYPE values that is no transport or preference marker decides, in any letter case. */
  lemma FirstTokenDecides(token: string, rest: seq<string>)
    requires ',' !in token
    ensures var u := ToUpper(TrimSpace(token));
      TypeFromTypes([token] + rest) ==
        if u in ["", "INTERNET", "VOICE", "PREF"] then TypeFromTypes(rest)
        else if u in ["CELL", "MOBILE"] then "cell" else ToLower(u)
  {
    hide ToUpper, TrimSpace;
    OneToken(token);
    assert ([token] + rest)[1..] == rest;
  }

  /** So "work" it is here, and "cell" from a list in one value. */
  lemma TypesOfOthers()
    ensures TypeFromTypes(["INTERNET", "WORK", "HOME"]) == "work"
    ensures TypeFromTypes(["PREF,CELL", "HOME"]) == "cell"
    ensures TypeFromTypes([]) == ""
  {
    hide Meaningful, Split;
    MeaningfulInternet();
    CapitalsStand("WORK");
    OneToken("WORK");
    MeaningfulOf("WORK");
    assert ToLower("WORK") == "work" by { WorkInSmall(); }
    assert ["INTERNET", "WORK", "HOME"][1..] == ["WORK", "HOME"];
    PrefAndCell();
  }

  lemma WorkInSmall()
    ensures ToLower("WORK") == "work"
  {
  }

  lemma PrefAndCell()
    ensures FirstMeaningful(Split("PREF,CELL", ',')) == Some("cell")
  {
    hide Meaningful, Split, Cut, ToUpper, TrimSpace;
    CapitalsStand("PREF");
    MeaningfulOf("PREF");
    CapitalsStand("CELL");
    MeaningfulOf("CELL");
    SplitPrefCell();
    assert ["PREF", "CELL"][1..] == ["CELL"];
  }

  lemma SplitPrefCell()
    ensures Split("PREF,CELL", ',') == ["PREF", "CELL"]
  {
    hide Split, Cut;
    SplitTwo("PREF", ',', "CELL");
    assert "PREF,CELL" == "PREF" + [','] + "CELL";
  }

  lemma SplitTwo(a: string, sep: char, b: string)
    requires sep !in a && sep !in b
    ensures Split(a + [sep] + b, sep) == [a, b]
  {
    CutAt(a, sep, b);
    assert Cut(b, sep).None?;
    assert Split(b, sep) == [b];
  }

  /** A label in the field's group, whatever the case of the group's name, comes before the TYPE values; the first one
      counts; and a blank one does not. */
  lemma LabelDecides(text: Field, more: seq<Field>, f: Field)
    requires f.group != "" && EqualFold(text.group, f.group)
    ensures TypeUnder([text] + more, f) ==
      if TrimSpace(text.value) != "" then NormalizeLabel(TrimSpace(text.value)) else TypeFromTypes(f.types)
    ensures TypeUnder([text] + more, f.(group := "")) == TypeFromTypes(f.types)
  {
    hide TrimSpace, NormalizeLabel, TypeFromTypes, EqualFold;
  }

  /** Labels of other groups play no part, and without any the TYPE values decide. */
  lemma OtherGroups(text: Field, more: seq<Field>, f: Field)
    requires !EqualFold(text.group, f.group)
    ensures TypeUnder([text] + more, f) == TypeUnder(more, f)
    ensures TypeUnder([], f) == TypeFromTypes(f.types)
  {
    hide TrimSpace, NormalizeLabel, TypeFromTypes, EqualFold;
    assert ([text] + more)[1..] == more;
  }

  /** What Apple wraps around a word is taken off, and a mobile phone is a cell phone. */
  lemma AppleLabel(word: string)
    ensures NormalizeLabel("_$!<" + word + ">!$_") == if ToLower(word) == "mobile" then "cell" else ToLower(word)
  {
    hide ToLower;
    var tag := "_$!<" + word + ">!$_";
    assert tag[..4] == "_$!<" && tag[|tag| - 4..] == ">!$_" && tag[4..|tag| - 4] == word;
  }

  /** Any other label stands as it is. */
  lemma OtherLabel(tag: string)
    requires |tag| < 8 || tag[..4] != "_$!<" || tag[|tag| - 4..] != ">!$_"
    ensures NormalizeLabel(tag) == tag
  {
    hide ToLower;
    if HasPrefix(tag, "_$!<") && HasSuffix(tag, ">!$_") { MarkersDoNotOverlap(tag); }
  }

  /** An ADR of any seven components: the post-office box is dropped, and the extended address follows the street. */
  lemma AddressOfOthers(card: Card, f: Field, box: string, extended: string, street: string, city: string,
                        region: string, postal: string, country: string)
    requires f.value == Join(EscapeAll([box, extended, street, city, region, postal, country]), ";")
    ensures var a := ReadAddress(card, f);
      && a.tag == TypeForField(card, f) && a.city == city && a.region == region && a.postal == postal
      && a.country == country
      && a.street ==
           if TrimSpace(extended) == "" then TrimSpace(street)
           else if TrimSpace(street) == "" then TrimSpace(extended)
           else TrimSpace(street + " " + extended)
  {
    hide TrimSpace, TypeForField;
    SplitUndoesJoin([box, extended, street, city, region, postal, country]);
    assert [street, extended][1..] == [extended] && [extended][1..] == [];
    assert NonEmpty([extended]) == if TrimSpace(extended) == "" then [] else [extended];
    assert TrimSpace("") == "" by { TrimSpaceFixes(""); }
    if TrimSpace(street) != "" && TrimSpace(extended) != "" {
      assert NonEmpty([street, extended]) == [street, extended];
      assert [street, extended][1..] == [extended];
      assert Join([street, extended], " ") == street + " " + extended;
    }
  }

  /** An ADR is passed over exactly if street, city, region, postal code and country are all blank, and the addresses
      come in the order of the fields. */
  lemma {:induction false} AddressesOfOthers(card: Card, fields: seq<Field>, f: Field)
    ensures var a := ReadAddress(card, f);
      ReadAddresses(card, fields + [f]) ==
        if Blank(a.street) && Blank(a.city) && Blank(a.region) && Blank(a.postal) && Blank(a.country)
        then ReadAddresses(card, fields) else ReadAddresses(card, fields) + [a]
    ensures ReadAddresses(card, []) == []
  {
    hide ReadAddress, IsEmptyAddress, Blank;
    ConcatBlank(ReadAddress(card, f));
    if fields == [] {
      assert fields + [f] == [f] && [f][1..] == [];
    } else {
      AddressesOfOthers(card, fields[1..], f);
      assert (fields + [f])[0] == fields[0] && (fields + [f])[1..] == fields[1..] + [f];
    }
  }

  /** Components that are not there are empty. */
  lemma ShortAddress(card: Card, street: string, f: Field)
    requires f.value == ";;" + street && ';' !in street && '\\' !in street
    ensures ReadAddress(card, f).street == TrimSpace(street) && ReadAddress(card, f).city == ""
    ensures ReadAddress(card, f).country == ""
  {
    hide TrimSpace, TypeForField;
    PlainScan(street, "");
    var tail := ";" + street;
    assert f.value[1..] == tail && tail[1..] == street && "" + street == street;
    assert Scan(tail, "") == [""] + Scan(street, "") == [""] + [street];
    assert Scan(f.value, "") == [""] + Scan(tail, "") == ["", "", street];
    StreetComesBack(street);
  }

  lemma {:induction false} PlainScan(s: string, cur: string)
    requires ';' !in s && '\\' !in s
    ensures Scan(s, cur) == [cur + s]
    decreases |s|
  {
    if s == "" {
      assert cur + s == cur;
    } else {
      PlainScan(s[1..], cur + [s[0]]);
      assert cur + [s[0]] + s[1..] == cur + s;
    }
  }

  /** A property that is there but holds nothing empties the list and leaves the scalar. */
  lemma EmptyValues(f: Field, existing: Contact, format: Address -> string)
    requires f.value == ""
    ensures var r := Imported(map["EMAIL" := [f], "TEL" := [f], "URL" := [f]], existing, format);
      && r.emails == [] && r.phones == [] && r.urls == [] && r.addresses == existing.addresses
      && r.email == existing.email && r.phone == existing.phone && r.address == existing.address
  {
    NamesDiffer();
    assert [f][1..] == [];
    var card := map["EMAIL" := [f], "TEL" := [f], "URL" := [f]];
    assert FieldsOf(card, EMAIL) == FieldsOf(card, TEL) == FieldsOf(card, URL) == [f] && FieldsOf(card, ADR) == [];
    assert ReadEntries(card, [f]) == ReadEntries(card, []) == [];
  }

  /** The properties kept from an import are written after the others, each under its own name and in order, but for
      those that have a column by now. */
  lemma {:induction false} ExtraIsRestored(card: Card, extra: seq<(string, Field)>, name: string, f: Field)
    ensures AddExtra(card, []) == card
    ensures AddExtra(card, extra + [(name, f)]) ==
      if name in ["VERSION", "UID", "FN", "N", "NICKNAME", "EMAIL", "TEL", "ADR", "BDAY", "GENDER", "CATEGORIES", "ORG",
        "PHOTO", "URL", "IMPP", "TITLE", "ROLE", "ANNIVERSARY", "X-ABLabel"]
      then AddExtra(card, extra) else AddField(AddExtra(card, extra), name, f)
    decreases |extra|
  {
    var last := (name, f);
    if extra == [] {
      assert extra + [last] == [last] && [last][1..] == [];
      assert AddExtra(card, [last]) == AddExtra(if name in MAPPED then card else AddField(card, name, f), []);
    } else {
      assert (extra + [last])[0] == extra[0] && (extra + [last])[1..] == extra[1..] + [last];
      var next := if extra[0].0 in MAPPED then card else AddField(card, extra[0].0, extra[0].1);
      ExtraIsRestored(next, extra[1..], name, f);
    }
  }

  /** So on an exported card. */
  lemma ExtraIsExported(c: Contact, name: string, f: Field)
    ensures Exported(c.(extra := [])) == Exported(c.(extra := [("TEL", f)]))
    ensures name !in MAPPED ==> Exported(c.(extra := c.extra + [(name, f)])) == AddField(Exported(c), name, f)
  {
    hide Drafted, AddExtra, Present, AddressEntries;
    var base := Drafted(EMAIL, TEL, ADR, URL, Present(ExportedEmails(c)), Present(ExportedPhones(c)),
                        AddressEntries(ExportedAddresses(c)), Present(c.urls)).card;
    ExtraIsRestored(base, c.extra, name, f);
    ExtraIsRestored(base, [], "TEL", f);
    assert [] + [("TEL", f)] == [("TEL", f)];
  }

  /** Adding a field appends it to its property and leaves the others. */
  lemma FieldIsAppended(card: Card, name: string, f: Field, other: string)
    ensures FieldsOf(AddField(card, name, f), name) == FieldsOf(card, name) + [f]
    ensures other != name ==> FieldsOf(AddField(card, name, f), other) == FieldsOf(card, other)
  {
  }
}
