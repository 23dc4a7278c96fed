/** At-rest envelope encryption: one data-encryption key (DEK), stored only wrapped by the master
    key, and column values framed as "encv1:main:" followed by the encoded ciphertext. */
module AtRest {
  import opened Prelude

  type Bytes = string

  const CIPHERTEXT_PREFIX := "encv1:"
  const KEY_ID := "main"
  const KEY_SIZE := 32

  /** AES-256-GCM with an explicit nonce, and base64url. */
  datatype Suite = Suite(
    seal: (Bytes, Bytes, Bytes) -> Option<Bytes>,   // key, nonce, plaintext
    open: (Bytes, Bytes) -> Option<Bytes>,          // key, data
    encode: Bytes -> Bytes,
    decode: Bytes -> Option<Bytes>)

  /** What the models use of the library code: open undoes seal, under no other key; 32-byte keys are
      usable; a sealed value is not empty and not shorter than its plaintext; decode undoes encode. */
  ghost predicate Lawful(c: Suite) {
    && (forall k, n, p :: |k| == KEY_SIZE ==> c.seal(k, n, p).Some?)
    && (forall k, n, p :: c.seal(k, n, p).Some? ==> c.seal(k, n, p).value != "")
    && (forall k, n, p :: c.seal(k, n, p).Some? ==> c.open(k, c.seal(k, n, p).value) == Some(p))
    && (forall k, n, p, j :: c.seal(k, n, p).Some? && j != k ==> c.open(j, c.seal(k, n, p).value) == None)
    && (forall k, d :: c.open(k, d).Some? ==> d != "" && |c.open(k, d).value| <= |d|)
    && (forall b :: c.decode(c.encode(b)) == Some(b))
    && (forall t :: c.decode(t).Some? ==> |c.decode(t).value| <= |t|)
  }

  /** The laws are consistent. */
  lemma LawfulSuiteExists()
    ensures exists c :: Lawful(c)
  {
    var c := Suite(
      (k: Bytes, n: Bytes, p: Bytes) => if |k| == KEY_SIZE then Some(k + p) else None,
      (k: Bytes, d: Bytes) => if |k| == KEY_SIZE && HasPrefix(d, k) then Some(d[KEY_SIZE..]) else None,
      (b: Bytes) => b,
      (t: Bytes) => Some(t));
    forall k, n, p | |k| == KEY_SIZE ensures c.open(k, c.seal(k, n, p).value) == Some(p) {
      assert (k + p)[..KEY_SIZE] == k && (k + p)[KEY_SIZE..] == p;
    }
    forall k, n, p, j | |k| == KEY_SIZE && j != k ensures c.open(j, c.seal(k, n, p).value) == None {
      assert (k + p)[..KEY_SIZE] == k;
    }
    assert Lawful(c);
  }

  datatype Error =
    | ErrNotInitialized
    | ErrMalformed
    | ErrOpenFailed       // wrong key or corrupted data
    | ErrDBRequired
    | ErrInvalidKey
    | ErrNoWrappedDEK
    | ErrDatabase
    | ErrSealFailed
    | ErrMalformedSpec

  /** The engine (on, dek, kek) and the wrapped_dek column of the key row, if there is one. */
  datatype State = State(on: bool, dek: Option<Bytes>, kek: Option<Bytes>, row: Option<Bytes>)

  /** Which database calls of an operation fail. */
  datatype Faults = Faults(noDb: bool, read: bool, write: bool)

  const NO_FAULTS := Faults(false, false, false)

  function Frame(payload: Bytes): string {
    CIPHERTEXT_PREFIX + KEY_ID + ":" + payload
  }

  /** The row's wrapped DEK when the code treats it as present. */
  function Wrapped(row: Option<Bytes>): Option<Bytes> {
    if row.Some? && row.value != "" then row else None
  }

  function LoadOrCreateDEK(c: Suite, row: Option<Bytes>, kek: Bytes, newDek: Bytes, nonce: Bytes, f: Faults)
    : Result<(Bytes, Option<Bytes>), Error>
  {
    if f.read then Err(ErrDatabase)
    else match Wrapped(row)
      case Some(wrapped) =>
        (match c.open(kek, wrapped)
         case None => Err(ErrOpenFailed)
         case Some(dek) => Ok((dek, row)))
      case None =>
        match c.seal(kek, nonce, newDek)
        case None => Err(ErrSealFailed)
        // key_id is UNIQUE, so an empty row makes the insert fail
        case Some(wrapped) => if f.write || row.Some? then Err(ErrDatabase) else Ok((newDek, Some(wrapped)))
  }

  function InitializeSpec(c: Suite, s: State, kek: Option<Bytes>, newDek: Bytes, nonce: Bytes, f: Faults)
    : (State, Option<Error>)
  {
    match kek
    case None => (s.(on := false, dek := None, kek := None), None)
    case Some(k) =>
      if f.noDb then (s, Some(ErrDBRequired))
      else match LoadOrCreateDEK(c, s.row, k, newDek, nonce, f)
        case Err(e) => (s, Some(e))
        case Ok((dek, row)) => (State(true, Some(dek), kek, row), None)
  }

  function RotateSpec(c: Suite, s: State, oldKek: Option<Bytes>, newKek: Option<Bytes>, nonce: Bytes, f: Faults)
    : (State, Option<Error>)
  {
    if f.noDb then (s, Some(ErrDBRequired))
    else if oldKek.None? || newKek.None? then (s, Some(ErrInvalidKey))
    else if f.read then (s, Some(ErrDatabase))
    else match Wrapped(s.row)
      case None => (s, Some(ErrNoWrappedDEK))
      case Some(wrapped) =>
        match c.open(oldKek.value, wrapped)
        case None => (s, Some(ErrOpenFailed))
        case Some(dek) =>
          match c.seal(newKek.value, nonce, dek)
          case None => (s, Some(ErrSealFailed))
          case Some(rewrapped) =>
            if f.write then (s, Some(ErrDatabase))
                else (s.(dek := Some(dek), kek := newKek, row := Some(rewrapped)), None)
  }

  function Encrypt(c: Suite, s: State, nonce: Bytes, plaintext: string): Result<string, Error> {
    if plaintext == "" then Ok("")
    else if !s.on then Ok(plaintext)
    else if s.dek.None? then Err(ErrSealFailed)
    else match c.seal(s.dek.value, nonce, plaintext)
      case None => Err(ErrSealFailed)
      case Some(ct) => Ok(Frame(c.encode(ct)))
  }

  function OpenStored(c: Suite, dek: Bytes, stored: string): Result<string, Error>
    requires HasPrefix(stored, CIPHERTEXT_PREFIX)
  {
    match Cut(stored[|CIPHERTEXT_PREFIX|..], ':')
    case None => Err(ErrMalformed)
    case Some((kid, payload)) =>
      if kid != KEY_ID then Err(ErrMalformed)
      else match c.decode(payload)
        case None => Err(ErrMalformed)
        case Some(raw) =>
          match c.open(dek, raw)
          case None => Err(ErrOpenFailed)
          case Some(pt) => Ok(pt)
  }

  function Decrypt(c: Suite, s: State, stored: string): Result<string, Error> {
    if stored == "" then Ok("")
    else if !HasPrefix(stored, CIPHERTEXT_PREFIX) then Ok(stored)
    else if !s.on || s.dek.None? then Err(ErrNotInitialized)
    else OpenStored(c, s.dek.value, stored)
  }

  function AsciiLower(c: char): char {
    if 'A' <= c <= 'Z' then c - 'A' + 'a' else c
  }

  /** SQLite's value LIKE 'encv1:%', which ignores ASCII case. */
  predicate LikeCiphertext(s: string) {
    && |CIPHERTEXT_PREFIX| <= |s|
    && forall i :: 0 <= i < |CIPHERTEXT_PREFIX| ==> AsciiLower(s[i]) == CIPHERTEXT_PREFIX[i]
  }

  /** The texts the backfill rewrites: not empty, not like a ciphertext. */
  predicate NeedsSealing(s: string) {
    s != "" && !LikeCiphertext(s)
  }

  /** Ciphertext has the exact prefix, so the LIKE test sees it too. */
  lemma CiphertextIsLikeCiphertext(s: string)
    requires HasPrefix(s, CIPHERTEXT_PREFIX)
    ensures LikeCiphertext(s)
  {
    forall i | 0 <= i < |CIPHERTEXT_PREFIX| ensures AsciiLower(s[i]) == CIPHERTEXT_PREFIX[i] {
      assert s[i] == s[..|CIPHERTEXT_PREFIX|][i];
    }
  }

  function VerifyBackupDecryptable(c: Suite, row: Option<Bytes>, kek: Option<Bytes>, f: Faults): Option<Error> {
    if kek.None? then None
    else if f.noDb then Some(ErrDBRequired)
    else if f.read then Some(ErrDatabase)
    else match Wrapped(row)
      case None => None
      case Some(wrapped) => if c.open(kek.value, wrapped).None? then Some(ErrOpenFailed) else None
  }

  /** NewOpener: the DEK of an Opener, None for one that only passes plaintext through. */
  function NewOpener(c: Suite, row: Option<Bytes>, kek: Option<Bytes>, f: Faults): Result<Option<Bytes>, Error> {
    if kek.None? then Ok(None)
    else if f.read then Err(ErrDatabase)
    else if row.None? then Ok(None)
    else match c.open(kek.value, row.value)
      case None => Err(ErrOpenFailed)
      case Some(dek) => Ok(Some(dek))
  }

  function OpenerDecrypt(c: Suite, opener: Option<Bytes>, stored: string): Result<string, Error> {
    if !HasPrefix(stored, CIPHERTEXT_PREFIX) then Ok(stored)
    else if opener.None? then Err(ErrNotInitialized)
    else OpenStored(c, opener.value, stored)
  }

  // ----- The engine as the program keeps it -----

  class Engine {
    const suite: Suite
    var on: bool
    var dek: Option<Bytes>
    var kek: Option<Bytes>
    var row: Option<Bytes>   // data_encryption_keys.wrapped_dek

    constructor (suite: Suite)
      ensures this.suite == suite && Snapshot() == State(false, None, None, None)
    {
      this.suite := suite;
      on, dek, kek, row := false, None, None, None;
    }

    function Snapshot(): State
      reads this
    {
      State(on, dek, kek, row)
    }

    method Initialize(newKek: Option<Bytes>, newDek: Bytes, nonce: Bytes, f: Faults) returns (err: Option<Error>)
      modifies this
      ensures (Snapshot(), err) == InitializeSpec(suite, old(Snapshot()), newKek, newDek, nonce, f)
    {
      if newKek.None? {
        on, dek, kek := false, None, None;
        return None;
      }
      if f.noDb { return Some(ErrDBRequired); }
      if f.read { return Some(ErrDatabase); }
      var unwrapped: Bytes;
      if row.Some? && row.value != "" {
        var inner := suite.open(newKek.value, row.value);
        if inner.None? { return Some(ErrOpenFailed); }
        unwrapped := inner.value;
      } else {
        unwrapped := newDek;
        var wrapped := suite.seal(newKek.value, nonce, newDek);
        if wrapped.None? { return Some(ErrSealFailed); }
        if f.write || row.Some? { return Some(ErrDatabase); }
        row := wrapped;
      }
      dek, kek, on := Some(unwrapped), newKek, true;
      return None;
    }

    method RotateMasterKey(oldKek: Option<Bytes>, newKek: Option<Bytes>, nonce: Bytes,
                           f: Faults) returns (err: Option<Error>)
      modifies this
      ensures (Snapshot(), err) == RotateSpec(suite, old(Snapshot()), oldKek, newKek, nonce, f)
    {
      if f.noDb { return Some(ErrDBRequired); }
      if oldKek.None? || newKek.None? { return Some(ErrInvalidKey); }
      if f.read { return Some(ErrDatabase); }
      if row.None? || row.value == "" { return Some(ErrNoWrappedDEK); }
      var inner := suite.open(oldKek.value, row.value);
      if inner.None? { return Some(ErrOpenFailed); }
      var rewrapped := suite.seal(newKek.value, nonce, inner.value);
      if rewrapped.None? { return Some(ErrSealFailed); }
      if f.write { return Some(ErrDatabase); }
      row := rewrapped;
      dek, kek := inner, newKek;
      return None;
    }
  }

  // ----- Runs: initialise, rotate, write, backfill -----

  /** A stored value, with the plaintext written, whether the engine was armed then, and whether the text has been
      encrypted, then or by a backfill since. */
  datatype Stored = Stored(text: string, plaintext: string, armed: bool, sealed: bool)

  /** master is the master key the operator last created or rotated the deployment to. */
  datatype World = World(s: State, master: Bytes, values: map<string, Stored>)

  datatype Event =
    | Boot(kek: Option<Bytes>, newDek: Bytes, bootNonce: Bytes, bootFaults: Faults)
    | Rotate(oldKek: Option<Bytes>, newKek: Option<Bytes>, rotateNonce: Bytes, rotateFaults: Faults)
    | Write(column: string, plaintext: string, writeNonce: Bytes)
    | Fill(ids: set<string>, fillNonces: string -> Bytes)   // a backfill whose committed transactions reach ids

  /** A value the backfill has reached. */
  function Refilled(c: Suite, s: State, nonce: Bytes, v: Stored): Stored {
    if NeedsSealing(v.text) && Encrypt(c, s, nonce, v.text).Ok? then
      v.(text := Encrypt(c, s, nonce, v.text).value, sealed := true)
    else v
  }

  function Start(): World {
    World(State(false, None, None, None), "", map[])
  }

  function Apply(c: Suite, w: World, e: Event): World {
    match e
    case Boot(kek, newDek, nonce, f) =>
      var (s, err) := InitializeSpec(c, w.s, kek, newDek, nonce, f);
      w.(s := s, master := if err.None? && kek.Some? then kek.value else w.master)
    case Rotate(oldKek, newKek, nonce, f) =>
      var (s, err) := RotateSpec(c, w.s, oldKek, newKek, nonce, f);
      w.(s := s, master := if err.None? && newKek.Some? then newKek.value else w.master)
    case Write(column, plaintext, nonce) =>
      (match Encrypt(c, w.s, nonce, plaintext)
       case Err(_) => w
       case Ok(text) => w.(values := w.values[column := Stored(text, plaintext, w.s.on, w.s.on)]))
    case Fill(ids, nonces) =>
      if !w.s.on then w
      else w.(values := map id | id in w.values ::
        if id in ids then Refilled(c, w.s, nonces(id), w.values[id]) else w.values[id])
  }

  /** The DEK is 32 fresh random bytes. */
  predicate Legal(e: Event) {
    e.Boot? ==> |e.newDek| == KEY_SIZE
  }

  function Run(c: Suite, w: World, es: seq<Event>): World
    decreases |es|
  {
    if es == [] then w else Run(c, Apply(c, w, es[0]), es[1..])
  }

  ghost predicate AllLegal(es: seq<Event>) {
    forall i :: 0 <= i < |es| ==> Legal(es[i])
  }

  /** The DEK inside the key row. */
  function DekOf(c: Suite, w: World): Option<Bytes> {
    match w.s.row
    case None => None
    case Some(wrapped) => c.open(w.master, wrapped)
  }

  /** What is stored is the framed ciphertext once it has been sealed, and the text itself until then.  Writing with the
      engine armed seals at once; a backfill later seals nothing that starts with the prefix. */
  ghost predicate StoredWell(c: Suite, dek: Option<Bytes>, v: Stored) {
    && (if v.sealed && v.plaintext != "" then SealedText(c, dek, v.text, v.plaintext) else v.text == v.plaintext)
    && (v.armed ==> v.sealed)
    && (v.sealed && !v.armed ==> !HasPrefix(v.plaintext, CIPHERTEXT_PREFIX))
  }

  ghost predicate SealedText(c: Suite, dek: Option<Bytes>, text: string, plaintext: string) {
    dek.Some? && exists d :: text == Frame(c.encode(d)) && c.open(dek.value, d) == Some(plaintext)
  }

  /** The row holds the DEK under the master key and no other; the engine holds that DEK. */
  ghost predicate KeyInv(c: Suite, w: World) {
    && (w.s.row.Some? ==> w.s.row.value != "" && DekOf(c, w).Some? && |DekOf(c, w).value| == KEY_SIZE)
    && (w.s.row.Some? ==> forall k :: k != w.master ==> c.open(k, w.s.row.value) == None)
    && (w.s.dek.Some? ==> w.s.dek == DekOf(c, w))
    && (w.s.on ==> w.s.dek.Some? && w.s.kek == Some(w.master))
  }

  ghost predicate Inv(c: Suite, w: World) {
    KeyInv(c, w) && forall id :: id in w.values ==> StoredWell(c, DekOf(c, w), w.values[id])
  }

  lemma BootKeepsKeyInv(c: Suite, w: World, e: Event)
    requires Lawful(c) && KeyInv(c, w) && Legal(e) && e.Boot?
    ensures KeyInv(c, Apply(c, w, e))
    ensures DekOf(c, w).Some? ==> DekOf(c, Apply(c, w, e)) == DekOf(c, w)
  {
  }

  lemma RotateKeepsKeyInv(c: Suite, w: World, e: Event)
    requires Lawful(c) && KeyInv(c, w) && e.Rotate?
    ensures KeyInv(c, Apply(c, w, e))
    ensures DekOf(c, w).Some? ==> DekOf(c, Apply(c, w, e)) == DekOf(c, w)
  {
  }

  lemma WriteKeepsInv(c: Suite, w: World, e: Event)
    requires Lawful(c) && Inv(c, w) && e.Write?
    ensures Inv(c, Apply(c, w, e)) && Apply(c, w, e).s == w.s && Apply(c, w, e).master == w.master
  {
    if w.s.on && e.plaintext != "" { EncryptSeals(c, w, e.writeNonce, e.plaintext); }
  }

  /** Sealing a text gives a framed ciphertext of it. */
  lemma EncryptSeals(c: Suite, w: World, nonce: Bytes, plaintext: string)
    requires Lawful(c) && KeyInv(c, w) && w.s.on && plaintext != ""
    ensures Encrypt(c, w.s, nonce, plaintext).Ok?
    ensures SealedText(c, DekOf(c, w), Encrypt(c, w.s, nonce, plaintext).value, plaintext)
  {
    var ct := c.seal(w.s.dek.value, nonce, plaintext).value;
    assert c.open(w.s.dek.value, ct) == Some(plaintext);
  }

  /** What is sealed is not sealed again, and what is not yet sealed is its own plaintext. */
  lemma RefilledIsStoredWell(c: Suite, w: World, nonce: Bytes, v: Stored)
    requires Lawful(c) && KeyInv(c, w) && w.s.on && StoredWell(c, DekOf(c, w), v)
    ensures StoredWell(c, DekOf(c, w), Refilled(c, w.s, nonce, v))
  {
    hide LikeCiphertext, Frame;
    if v.sealed && v.plaintext != "" {
      var d :| v.text == Frame(c.encode(d)) && c.open(DekOf(c, w).value, d) == Some(v.plaintext);
      OpenFrame(c, DekOf(c, w).value, d);
      CiphertextIsLikeCiphertext(v.text);
    } else if NeedsSealing(v.text) {
      EncryptSeals(c, w, nonce, v.text);
      if HasPrefix(v.text, CIPHERTEXT_PREFIX) { CiphertextIsLikeCiphertext(v.text); }
    }
  }

  lemma FillKeepsInv(c: Suite, w: World, e: Event)
    requires Lawful(c) && Inv(c, w) && e.Fill?
    ensures Inv(c, Apply(c, w, e)) && Apply(c, w, e).s == w.s && Apply(c, w, e).master == w.master
  {
    hide StoredWell, KeyInv, Refilled;
    if w.s.on {
      forall id | id in w.values ensures StoredWell(c, DekOf(c, w), Refilled(c, w.s, e.fillNonces(id), w.values[id])) {
        RefilledIsStoredWell(c, w, e.fillNonces(id), w.values[id]);
      }
      assert KeyInv(c, Apply(c, w, e)) by { KeyInvIgnoresValues(c, w, Apply(c, w, e)); }
    }
  }

  lemma KeyInvIgnoresValues(c: Suite, w: World, v: World)
    requires KeyInv(c, w) && v.s == w.s && v.master == w.master
    ensures KeyInv(c, v) && DekOf(c, v) == DekOf(c, w)
  {
  }

  lemma StepKeepsInv(c: Suite, w: World, e: Event)
    requires Lawful(c) && Inv(c, w) && Legal(e)
    ensures Inv(c, Apply(c, w, e))
    ensures DekOf(c, w).Some? ==> DekOf(c, Apply(c, w, e)) == DekOf(c, w)
  {
    match e {
      case Boot(_, _, _, _) => BootKeepsKeyInv(c, w, e);
      case Rotate(_, _, _, _) => RotateKeepsKeyInv(c, w, e);
      case Write(_, _, _) => WriteKeepsInv(c, w, e);
      case Fill(_, _) => FillKeepsInv(c, w, e);
    }
  }

  lemma {:induction false} RunKeepsInv(c: Suite, w: World, es: seq<Event>)
    requires Lawful(c) && Inv(c, w) && AllLegal(es)
    ensures Inv(c, Run(c, w, es))
    ensures DekOf(c, w).Some? ==> DekOf(c, Run(c, w, es)) == DekOf(c, w)
    decreases |es|
  {
    if es != [] {
      StepKeepsInv(c, w, es[0]);
      RunKeepsInv(c, Apply(c, w, es[0]), es[1..]);
    }
  }

  lemma {:induction false} RunConcat(c: Suite, w: World, es: seq<Event>, fs: seq<Event>)
    ensures Run(c, w, es + fs) == Run(c, Run(c, w, es), fs)
    decreases |es|
  {
    if es == [] {
      assert es + fs == fs;
    } else {
      assert (es + fs)[0] == es[0] && (es + fs)[1..] == es[1..] + fs;
      RunConcat(c, Apply(c, w, es[0]), es[1..], fs);
    }
  }

  // ----- What every run promises -----

  /** Once the key row exists, no sequence of boots, rotations and writes changes the DEK inside it. */
  lemma DekNeverChanges(c: Suite, es: seq<Event>, fs: seq<Event>)
    requires Lawful(c) && AllLegal(es) && AllLegal(fs)
    requires Run(c, Start(), es).s.row.Some?
    ensures var w := Run(c, Start(), es); var v := Run(c, Start(), es + fs);
      DekOf(c, w).Some? && DekOf(c, v) == DekOf(c, w)
  {
    RunKeepsInv(c, Start(), es);
    RunKeepsInv(c, Run(c, Start(), es), fs);
    RunConcat(c, Start(), es, fs);
  }

  /** A framed ciphertext opens to what was sealed. */
  lemma OpenFrame(c: Suite, dek: Bytes, d: Bytes)
    requires Lawful(c)
    ensures HasPrefix(Frame(c.encode(d)), CIPHERTEXT_PREFIX)
    ensures OpenStored(c, dek, Frame(c.encode(d))) ==
      if c.open(dek, d).Some? then Ok(c.open(dek, d).value) else Err(ErrOpenFailed)
  {
    var stored := Frame(c.encode(d));
    assert stored == CIPHERTEXT_PREFIX + (KEY_ID + [':'] + c.encode(d));
    assert stored[|CIPHERTEXT_PREFIX|..] == KEY_ID + [':'] + c.encode(d);
    CutAt(KEY_ID, ':', c.encode(d));
  }

  /** Opening always yields something strictly shorter than the stored text. */
  lemma OpenShrinks(c: Suite, dek: Bytes, stored: string)
    requires Lawful(c) && HasPrefix(stored, CIPHERTEXT_PREFIX)
    ensures OpenStored(c, dek, stored).Ok? ==> |OpenStored(c, dek, stored).value| < |stored|
  {
  }

  /** With the engine armed, whatever boots, rotations, writes and backfills there have been, a value reads back as
      the plaintext written exactly when the engine was armed at the time or the plaintext does not itself start with
      the ciphertext prefix. */
  lemma ReadsBackExactlyWhen(c: Suite, es: seq<Event>, id: string)
    requires Lawful(c) && AllLegal(es)
    requires var w := Run(c, Start(), es); w.s.on && id in w.values
    ensures var w := Run(c, Start(), es); var v := w.values[id];
      Decrypt(c, w.s, v.text) == Ok(v.plaintext) <==> v.armed || !HasPrefix(v.plaintext, CIPHERTEXT_PREFIX)
  {
    RunKeepsInv(c, Start(), es);
    var w := Run(c, Start(), es);
    var v := w.values[id];
    var dek := w.s.dek.value;
    assert StoredWell(c, DekOf(c, w), v);
    if v.sealed && v.plaintext != "" {
      var d :| v.text == Frame(c.encode(d)) && c.open(dek, d) == Some(v.plaintext);
      OpenFrame(c, dek, d);
    } else if HasPrefix(v.text, CIPHERTEXT_PREFIX) {
      OpenShrinks(c, dek, v.text);
    }
  }

  /** A value that does not read back: written before encryption was turned on, it looks like a malformed ciphertext. */
  lemma PrefixedPlaintextIsRefused(c: Suite, kek: Bytes, newDek: Bytes, nonce: Bytes)
    requires Lawful(c) && |kek| == KEY_SIZE && |newDek| == KEY_SIZE
    ensures var w := Run(c, Start(), [Write("note", "encv1:hello", nonce), Boot(Some(kek), newDek, nonce, NO_FAULTS)]);
      w.s.on && "note" in w.values && Decrypt(c, w.s, w.values["note"].text) == Err(ErrMalformed)
  {
    hide Run, Decrypt, InitializeSpec;
    var write, boot := Write("note", "encv1:hello", nonce), Boot(Some(kek), newDek, nonce, NO_FAULTS);
    var written := Apply(c, Start(), write);
    RunTwo(c, Start(), write, boot);
    assert written.s == Start().s && written.values["note"].text == "encv1:hello";
    FirstBoot(c, written.s, kek, newDek, nonce, NO_FAULTS);
    ReadForm(c, Apply(c, written, boot).s, "hello", "");
    assert "encv1:" + "hello" == "encv1:hello";
  }

  lemma RunTwo(c: Suite, w: World, first: Event, second: Event)
    ensures Run(c, w, [first, second]) == Apply(c, Apply(c, w, first), second)
  {
    hide Apply;
    assert [first, second][1..] == [second] && [second][1..] == [];
    assert Run(c, w, [first, second]) == Run(c, Apply(c, w, first), [second]);
  }

  /** Disarmed, no ciphertext is ever handed out: a value sealed when written or by a backfill fails closed. */
  lemma DisarmedFailsClosed(c: Suite, es: seq<Event>, id: string)
    requires Lawful(c) && AllLegal(es)
    requires var w := Run(c, Start(), es); !w.s.on && id in w.values
    ensures var w := Run(c, Start(), es); var v := w.values[id];
      Decrypt(c, w.s, v.text) == if (v.sealed && v.plaintext != "") || HasPrefix(v.plaintext, CIPHERTEXT_PREFIX)
                                 then Err(ErrNotInitialized) else Ok(v.plaintext)
  {
    RunKeepsInv(c, Start(), es);
    var w := Run(c, Start(), es);
    var v := w.values[id];
    assert StoredWell(c, DekOf(c, w), v);
    if v.sealed && v.plaintext != "" {
      var d :| v.text == Frame(c.encode(d));
      OpenFrame(c, "", d);
    }
  }

  /** On a deployment with a key row, booting, rotating, verifying a backup and opening a snapshot
      accept exactly the current master key; a key that was rotated away is refused by all four. */
  lemma OnlyTheCurrentMasterKeyOpens(c: Suite, es: seq<Event>, kek: Bytes, newKek: Bytes, newDek: Bytes, nonce: Bytes)
    requires Lawful(c) && AllLegal(es) && Run(c, Start(), es).s.row.Some? && |newKek| == KEY_SIZE
    ensures var w := Run(c, Start(), es);
      && (InitializeSpec(c, w.s, Some(kek), newDek, nonce, NO_FAULTS).1.None? <==> kek == w.master)
      && (VerifyBackupDecryptable(c, w.s.row, Some(kek), NO_FAULTS).None? <==> kek == w.master)
      && (NewOpener(c, w.s.row, Some(kek), NO_FAULTS).Ok? <==> kek == w.master)
      && (RotateSpec(c, w.s, Some(kek), Some(newKek), nonce, NO_FAULTS).1.None? <==> kek == w.master)
  {
    RunKeepsInv(c, Start(), es);
  }

  /** An Opener made with the master key reads every stored text exactly as the armed engine does. */
  lemma OpenerAgreesWithEngine(c: Suite, es: seq<Event>, stored: string)
    requires Lawful(c) && AllLegal(es) && Run(c, Start(), es).s.on
    ensures var w := Run(c, Start(), es); var o := NewOpener(c, w.s.row, w.s.kek, NO_FAULTS);
      o.Ok? && OpenerDecrypt(c, o.value, stored) == Decrypt(c, w.s, stored)
  {
    RunKeepsInv(c, Start(), es);
  }

  /** On any key row, whatever wrote it: the three checks agree, except that an empty wrapped DEK passes
      VerifyBackupDecryptable while NewOpener and Initialize refuse it. */
  lemma ChecksAgreeUnlessRowIsEmpty(c: Suite, s: State, kek: Bytes, newDek: Bytes, nonce: Bytes)
    requires Lawful(c) && s.row.Some?
    ensures InitializeSpec(c, s, Some(kek), newDek, nonce, NO_FAULTS).1.None?
      <==> NewOpener(c, s.row, Some(kek), NO_FAULTS).Ok?
    ensures (VerifyBackupDecryptable(c, s.row, Some(kek), NO_FAULTS).None?
      <==> NewOpener(c, s.row, Some(kek), NO_FAULTS).Ok?)
       <==> s.row != Some("")
  {
  }

  // ----- What each operation answers -----

  /** Whatever the state: a rotation that fails changes nothing, and how it fails. */
  lemma RotationFailures(c: Suite, s: State, oldKek: Option<Bytes>, newKek: Option<Bytes>, nonce: Bytes, f: Faults)
    requires Lawful(c)
    ensures var (t, err) := RotateSpec(c, s, oldKek, newKek, nonce, f);
      && (err.Some? ==> t == s)
      && (f.noDb ==> err == Some(ErrDBRequired))
      && (!f.noDb && (oldKek == None || newKek == None) ==> err == Some(ErrInvalidKey))
      && (!f.noDb && oldKek.Some? && newKek.Some? ==>
            && (f.read ==> err == Some(ErrDatabase))
            && (!f.read && (s.row == None || s.row == Some("")) ==> err == Some(ErrNoWrappedDEK))
            && (!f.read && s.row.Some? && s.row != Some("") && c.open(oldKek.value, s.row.value) == None ==>
                  err == Some(ErrOpenFailed))
            && (f.write ==> err.Some?))
  {
  }

  /** After every run, with a usable new key and no fault, a rotation succeeds exactly if there is a key row and the old
      key is the master key.  Then the row holds the same DEK under the new key, and the engine goes on with both. */
  lemma RotationSucceedsIff(c: Suite, es: seq<Event>, oldKek: Bytes, newKek: Bytes, nonce: Bytes)
    requires Lawful(c) && AllLegal(es) && |newKek| == KEY_SIZE
    ensures var w := Run(c, Start(), es);
      var (t, err) := RotateSpec(c, w.s, Some(oldKek), Some(newKek), nonce, NO_FAULTS);
      && (err == None <==> w.s.row.Some? && oldKek == w.master)
      && (err == None ==>
            && t.row.Some? && c.open(newKek, t.row.value) == c.open(oldKek, w.s.row.value) == t.dek
            && t.dek.Some? && t.kek == Some(newKek) && t.on == w.s.on)
      && (w.s.row == None ==> err == Some(ErrNoWrappedDEK))
      && (w.s.row.Some? && oldKek != w.master ==> err == Some(ErrOpenFailed))
  {
    RunKeepsInv(c, Start(), es);
  }

  /** Without a key, booting turns encryption off and needs nothing; with one it needs the database. */
  lemma BootWithoutKeyOrDatabase(c: Suite, s: State, kek: Bytes, newDek: Bytes, nonce: Bytes, f: Faults)
    ensures InitializeSpec(c, s, None, newDek, nonce, f) == (State(false, None, None, s.row), None)
    ensures f.noDb ==> InitializeSpec(c, s, Some(kek), newDek, nonce, f) == (s, Some(ErrDBRequired))
    ensures !f.noDb && f.read ==> InitializeSpec(c, s, Some(kek), newDek, nonce, f) == (s, Some(ErrDatabase))
  {
  }

  /** The first boot with a usable key creates the row: the new DEK under that key.  If that cannot be written, nothing
      changes and the boot fails. */
  lemma FirstBoot(c: Suite, s: State, kek: Bytes, newDek: Bytes, nonce: Bytes, f: Faults)
    requires Lawful(c) && |kek| == KEY_SIZE && s.row == None && !f.noDb && !f.read
    ensures var (t, err) := InitializeSpec(c, s, Some(kek), newDek, nonce, f);
      && (f.write ==> (t, err) == (s, Some(ErrDatabase)))
      && (!f.write ==>
            && err == None && t.on && t.dek == Some(newDek) && t.kek == Some(kek)
            && t.row.Some? && c.open(kek, t.row.value) == Some(newDek))
  {
  }

  /** A row with an empty wrapped DEK cannot be booted from, nor replaced. */
  lemma BootOnEmptyRow(c: Suite, s: State, kek: Bytes, newDek: Bytes, nonce: Bytes)
    requires Lawful(c) && |kek| == KEY_SIZE && s.row == Some("")
    ensures InitializeSpec(c, s, Some(kek), newDek, nonce, NO_FAULTS) == (s, Some(ErrDatabase))
  {
  }

  /** A later boot succeeds exactly under the master key, and then arms the engine with the DEK of the row; a wrong key
      changes nothing. */
  lemma LaterBoot(c: Suite, es: seq<Event>, kek: Bytes, newDek: Bytes, nonce: Bytes)
    requires Lawful(c) && AllLegal(es) && Run(c, Start(), es).s.row.Some?
    ensures var w := Run(c, Start(), es);
      InitializeSpec(c, w.s, Some(kek), newDek, nonce, NO_FAULTS) ==
        if kek == w.master then (State(true, c.open(kek, w.s.row.value), Some(kek), w.s.row), None)
        else (w.s, Some(ErrOpenFailed))
  {
    RunKeepsInv(c, Start(), es);
  }

  /** The two read-only checks without a key or without a row: nothing to verify, and an opener that passes plaintext
      through and refuses ciphertext. */
  lemma ChecksWithoutKeyOrRow(c: Suite, row: Option<Bytes>, kek: Bytes, stored: string, f: Faults)
    ensures VerifyBackupDecryptable(c, row, None, f) == None && NewOpener(c, row, None, f) == Ok(None)
    ensures VerifyBackupDecryptable(c, None, Some(kek), NO_FAULTS) == None
    ensures NewOpener(c, None, Some(kek), NO_FAULTS) == Ok(None)
    ensures f.noDb ==> VerifyBackupDecryptable(c, row, Some(kek), f) == Some(ErrDBRequired)
    ensures !f.noDb && f.read ==> VerifyBackupDecryptable(c, row, Some(kek), f) == Some(ErrDatabase)
    ensures f.read ==> NewOpener(c, row, Some(kek), f) == Err(ErrDatabase)
    ensures OpenerDecrypt(c, None, stored) ==
      if |stored| >= 6 && stored[..6] == "encv1:" then Err(ErrNotInitialized) else Ok(stored)
  {
  }

  /** A row that does not open under the key is refused by both with the same answer. */
  lemma ChecksRefuseWrongKey(c: Suite, wrapped: Bytes, kek: Bytes)
    requires wrapped != "" && c.open(kek, wrapped) == None
    ensures VerifyBackupDecryptable(c, Some(wrapped), Some(kek), NO_FAULTS) == Some(ErrOpenFailed)
    ensures NewOpener(c, Some(wrapped), Some(kek), NO_FAULTS) == Err(ErrOpenFailed)
  {
  }

  /** What is stored, spelled out. */
  lemma StoredForm(c: Suite, s: State, nonce: Bytes, plaintext: string)
    requires Lawful(c) && s.on && s.dek.Some? && |s.dek.value| == KEY_SIZE && plaintext != ""
    ensures Encrypt(c, s, nonce, plaintext) ==
      Ok("encv1:main:" + c.encode(c.seal(s.dek.value, nonce, plaintext).value))
    ensures Encrypt(c, s, nonce, "") == Ok("") && Encrypt(c, s.(on := false), nonce, plaintext) == Ok(plaintext)
  {
    assert "encv1:" + "main" + ":" == "encv1:main:";
  }

  /** What an armed engine answers for a text with the prefix. */
  lemma ReadForm(c: Suite, s: State, kid: string, payload: string)
    requires s.on && s.dek.Some? && ':' !in kid
    ensures Decrypt(c, s, "encv1:" + kid) == Err(ErrMalformed)
    ensures var r := Decrypt(c, s, "encv1:" + kid + ":" + payload);
      if kid != "main" || c.decode(payload) == None then r == Err(ErrMalformed)
      else match c.open(s.dek.value, c.decode(payload).value)
        case None => r == Err(ErrOpenFailed)
        case Some(plaintext) => r == Ok(plaintext)
  {
    var bare, full := "encv1:" + kid, "encv1:" + kid + ":" + payload;
    assert bare[..6] == "encv1:" == full[..6] && bare[6..] == kid;
    assert full[6..] == kid + [':'] + payload;
    CutAt(kid, ':', payload);
    assert Cut(kid, ':').None?;
  }

  /** What LIKE takes for ciphertext. */
  lemma LikeForm(s: string)
    ensures LikeCiphertext(s) <==>
      |s| >= 6 && s[0] in "eE" && s[1] in "nN" && s[2] in "cC" && s[3] in "vV" && s[4] == '1' && s[5] == ':'
  {
    assert CIPHERTEXT_PREFIX == "encv1:";
    if LikeCiphertext(s) {
      assert forall i :: 0 <= i < 6 ==> AsciiLower(s[i]) == CIPHERTEXT_PREFIX[i];
      assert AsciiLower(s[0]) == 'e' && AsciiLower(s[1]) == 'n' && AsciiLower(s[2]) == 'c' && AsciiLower(s[3]) == 'v'
        && AsciiLower(s[4]) == '1' && AsciiLower(s[5]) == ':';
    }
  }
}
