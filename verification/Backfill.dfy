/** Backfill: encrypting the plaintext that is already in the encrypted columns, one transaction per
    column, around the trigger that keeps audit_events append-only. */
module Backfill {
  import opened Prelude
  import A = AtRest

  const AUDIT_TABLE := "audit_events"

  /** What the driver hands back for a cell. */
  datatype Value = Null | Text(s: string) | Other

  datatype Row = Row(id: string, cells: map<string, Value>)

  datatype Table = Table(columns: set<string>, rows: seq<Row>)

  /** trigger: the BEFORE UPDATE trigger on audit_events exists. */
  datatype Database = Database(tables: map<string, Table>, trigger: bool)

  /** Primary keys are unique and every row has every column. */
  ghost predicate ValidTable(t: Table) {
    && (forall i :: 0 <= i < |t.rows| ==> t.rows[i].cells.Keys == t.columns)
    && (forall i, j :: 0 <= i < j < |t.rows| ==> t.rows[i].id != t.rows[j].id)
  }

  ghost predicate Valid(db: Database) {
    forall name :: name in db.tables ==> ValidTable(db.tables[name])
  }

  /** An engine that encrypts: armed with a usable DEK, as every armed engine is (AtRest.KeyInv). */
  ghost predicate Armed(c: A.Suite, s: A.State) {
    A.Lawful(c) && s.on && s.dek.Some? && |s.dek.value| == A.KEY_SIZE
  }

  /** The WHERE clause: not null, not empty, not like a ciphertext. */
  predicate Selected(v: Value) {
    v.Other? || (v.Text? && A.NeedsSealing(v.s))
  }

  /** The rows the backfill rewrites: those whose selected value is a string. */
  predicate Plain(v: Value) {
    v.Text? && A.NeedsSealing(v.s)
  }

  /** The SELECT: id and value of every matching row, in order. */
  function Select(rows: seq<Row>, column: string): (r: seq<(string, Value)>)
    requires forall i :: 0 <= i < |rows| ==> column in rows[i].cells
  {
    if rows == [] then []
    else
      var last := rows[|rows| - 1];
      var rest := Select(rows[..|rows| - 1], column);
      if Selected(last.cells[column]) then rest + [(last.id, last.cells[column])] else rest
  }

  lemma {:induction false} SelectSound(rows: seq<Row>, column: string, k: nat) returns (i: nat)
    requires forall i :: 0 <= i < |rows| ==> column in rows[i].cells
    requires k < |Select(rows, column)|
    ensures i < |rows| && Select(rows, column)[k] == (rows[i].id, rows[i].cells[column])
    ensures Selected(rows[i].cells[column])
  {
    var n := |rows| - 1;
    if k == |Select(rows[..n], column)| {
      i := n;
    } else {
      i := SelectSound(rows[..n], column, k);
    }
  }

  lemma {:induction false} SelectComplete(rows: seq<Row>, column: string, i: nat)
    requires forall i :: 0 <= i < |rows| ==> column in rows[i].cells
    requires i < |rows| && Selected(rows[i].cells[column])
    ensures (rows[i].id, rows[i].cells[column]) in Select(rows, column)
  {
    var n := |rows| - 1;
    if i < n {
      SelectComplete(rows[..n], column, i);
    }
  }

  function SetCell(r: Row, column: string, text: string): Row {
    r.(cells := r.cells[column := Text(text)])
  }

  /** UPDATE ... SET column = text WHERE id = id. */
  function UpdateWhere(rows: seq<Row>, column: string, id: string, text: string): (r: seq<Row>)
    ensures |r| == |rows|
  {
    seq(|rows|, i requires 0 <= i < |rows| => if rows[i].id == id then SetCell(rows[i], column, text) else rows[i])
  }

  function Sealed(c: A.Suite, s: A.State, nonce: string, v: Value): string
    requires v.Text?
  {
    match A.Encrypt(c, s, nonce, v.s)
    case Ok(text) => text
    case Err(_) => v.s
  }

  /** A row after its column has been backfilled; nonces are drawn per row. */
  function FillRow(c: A.Suite, s: A.State, nonces: string -> string, column: string, r: Row): Row
    requires column in r.cells
  {
    if Plain(r.cells[column]) then SetCell(r, column, Sealed(c, s, nonces(r.id), r.cells[column])) else r
  }

  /** A table after one of its columns has been backfilled. */
  function FillTable(c: A.Suite, s: A.State, nonces: string -> string, column: string, t: Table): Table
    requires forall i :: 0 <= i < |t.rows| ==> column in t.rows[i].cells
  {
    t.(rows := seq(|t.rows|, i requires 0 <= i < |t.rows| => FillRow(c, s, nonces, column, t.rows[i])))
  }

  /** The backfill of one column.  fault k makes the k-th statement after the SELECT fail, if there is one. */
  ghost function FillColumn(c: A.Suite, s: A.State, nonces: string -> string, table: string, column: string,
                            fault: Option<nat>, db: Database)
    : (Database, Option<A.Error>)
    requires Valid(db)
  {
    if table !in db.tables then (db, None)
    else if column !in db.tables[table].columns then (db, Some(A.ErrDatabase))
    else if fault.Some? && fault.value <= |Select(db.tables[table].rows, column)| then (db, Some(A.ErrDatabase))
    else (Database(db.tables[table := FillTable(c, s, nonces, column, db.tables[table])],
        table == AUDIT_TABLE || db.trigger), None)
  }

  // ----- The transaction, on the rows as they are by then -----

  /** The rows after the UPDATEs for the pairs an earlier SELECT has picked. */
  function Rewrite(c: A.Suite, s: A.State, nonces: string -> string, column: string, picked: seq<(string, Value)>,
                   rows: seq<Row>)
    : (r: seq<Row>)
    ensures |r| == |rows|
    decreases |picked|
  {
    if picked == [] then rows
    else
      var (id, v) := picked[|picked| - 1];
      var rest := Rewrite(c, s, nonces, column, picked[..|picked| - 1], rows);
      if v.Text? then UpdateWhere(rest, column, id, Sealed(c, s, nonces(id), v)) else rest
  }

  /** One column transaction after a SELECT that picked some pairs.  fault k makes its k-th statement fail, if there
      is one: the rewriting UPDATEs in order, then the commit (with the trigger's DDL). */
  ghost function Transaction(c: A.Suite, s: A.State, nonces: string -> string, table: string, column: string,
                             picked: seq<(string, Value)>, fault: Option<nat>, db: Database)
    : (Database, Option<A.Error>)
    requires table in db.tables
  {
    var t := db.tables[table];
    if fault.Some? && fault.value <= |picked| then (db, Some(A.ErrDatabase))
    else (Database(db.tables[table := t.(rows := Rewrite(c, s, nonces, column, picked, t.rows))],
        table == AUDIT_TABLE || db.trigger), None)
  }

  predicate DistinctIds(picked: seq<(string, Value)>) {
    forall i, j :: 0 <= i < j < |picked| ==> picked[i].0 != picked[j].0
  }

  lemma {:induction false} SelectDistinct(rows: seq<Row>, column: string)
    requires forall i :: 0 <= i < |rows| ==> column in rows[i].cells
    requires forall i, j :: 0 <= i < j < |rows| ==> rows[i].id != rows[j].id
    ensures DistinctIds(Select(rows, column))
  {
    if rows != [] {
      var n := |rows| - 1;
      SelectDistinct(rows[..n], column);
      forall k | 0 <= k < |Select(rows[..n], column)| ensures Select(rows[..n], column)[k].0 != rows[n].id {
        var i := SelectSound(rows[..n], column, k);
      }
    }
  }

  /** The pair was picked for the row, and its value is a string. */
  predicate PickedFor(picked: seq<(string, Value)>, k: int, id: string) {
    0 <= k < |picked| && picked[k].0 == id && picked[k].1.Text?
  }

  /** A row gets the sealed value that was picked for its id, if there was one. */
  lemma {:induction false} RewriteAt(c: A.Suite, s: A.State, nonces: string -> string, column: string,
                                     picked: seq<(string, Value)>, rows: seq<Row>, i: nat)
    requires i < |rows| && DistinctIds(picked)
    ensures var now, id := Rewrite(c, s, nonces, column, picked, rows)[i], rows[i].id;
      && now.id == id
      && (forall k :: PickedFor(picked, k, id) ==>
            now == SetCell(rows[i], column, Sealed(c, s, nonces(id), picked[k].1)))
      && ((forall k :: !PickedFor(picked, k, id)) ==> now == rows[i])
    decreases |picked|
  {
    hide Sealed;
    if picked != [] {
      var n := |picked| - 1;
      RewriteAt(c, s, nonces, column, picked[..n], rows, i);
      assert forall k :: 0 <= k < n ==> picked[..n][k] == picked[k];
      assert forall k :: PickedFor(picked[..n], k, rows[i].id) ==> PickedFor(picked, k, rows[i].id);
      assert forall k :: PickedFor(picked, k, rows[i].id) ==> k == n || PickedFor(picked[..n], k, rows[i].id);
      if !PickedFor(picked, n, rows[i].id) {
        assert Rewrite(c, s, nonces, column, picked, rows)[i] == Rewrite(c, s, nonces, column, picked[..n], rows)[i];
      }
    }
  }

  lemma SelectedAt(t: Table, column: string, k: nat, i: nat)
    requires ValidTable(t) && column in t.columns && i < |t.rows| && PickedFor(Select(t.rows, column), k, t.rows[i].id)
    ensures Plain(t.rows[i].cells[column]) && Select(t.rows, column)[k].1 == t.rows[i].cells[column]
  {
    hide Plain, Select, Selected;
    var j := SelectSound(t.rows, column, k);
    assert j == i && t.rows[j].cells[column].Text?;
    SelectedText(t.rows[i].cells[column]);
  }

  lemma SelectedText(v: Value)
    ensures Selected(v) && v.Text? <==> Plain(v)
  {
  }

  /** When nobody writes between the SELECT and the transaction, exactly the plain strings are sealed. */
  lemma RewriteFills(c: A.Suite, s: A.State, nonces: string -> string, column: string, t: Table)
    requires ValidTable(t) && column in t.columns
    ensures Rewrite(c, s, nonces, column, Select(t.rows, column), t.rows) == FillTable(c, s, nonces, column, t).rows
  {
    hide Select, Sealed, Rewrite;
    var picked := Select(t.rows, column);
    SelectDistinct(t.rows, column);
    forall i | 0 <= i < |t.rows|
      ensures Rewrite(c, s, nonces, column, picked, t.rows)[i] == FillRow(c, s, nonces, column, t.rows[i])
    {
      RewriteAt(c, s, nonces, column, picked, t.rows, i);
      if k :| PickedFor(picked, k, t.rows[i].id) { SelectedAt(t, column, k, i); }
      if Plain(t.rows[i].cells[column]) {
        SelectComplete(t.rows, column, i);
        var k :| 0 <= k < |picked| && picked[k] == (t.rows[i].id, t.rows[i].cells[column]);
        assert PickedFor(picked, k, t.rows[i].id);
      }
    }
  }

  /** No sealing error can stop the loop. */
  ghost predicate AlwaysSeals(c: A.Suite, s: A.State) {
    forall nonce, v :: A.Encrypt(c, s, nonce, v).Ok?
  }

  lemma ArmedAlwaysSeals(c: A.Suite, s: A.State)
    requires Armed(c, s)
    ensures AlwaysSeals(c, s)
  {
  }

  class Store {
    var tables: map<string, Table>
    var trigger: bool

    ghost function Db(): Database
      reads this
    {
      Database(tables, trigger)
    }

    constructor (db: Database)
      ensures Db() == db
    {
      tables, trigger := db.tables, db.trigger;
    }

    /** The trigger aborts every UPDATE of audit_events. */
    method Update(table: string, column: string, id: string, text: string) returns (ok: bool)
      requires table in tables
      modifies this`tables
      ensures ok == !(table == "audit_events" && trigger)
      ensures !ok ==> tables == old(tables)
      ensures ok ==>
        var t := old(tables)[table];
        tables == old(tables)[table := t.(rows := UpdateWhere(t.rows, column, id, text))]
    {
      if table == AUDIT_TABLE && trigger { return false; }
      tables := tables[table := tables[table].(rows := UpdateWhere(tables[table].rows, column, id, text))];
      return true;
    }

    /** The loop of the transaction body: rewrites the picked rows, or stops at a failing statement. */
    method UpdateRows(c: A.Suite, s: A.State, nonces: string -> string, table: string, column: string,
                      rows: seq<(string, Value)>, fault: Option<nat>)
      returns (ok: bool)
      requires AlwaysSeals(c, s) && table in tables && !(table == AUDIT_TABLE && trigger)
      modifies this`tables
      ensures ok == !(fault.Some? && fault.value < |rows|)
      ensures var t := old(tables)[table];
        ok ==> tables == old(tables)[table := t.(rows := Rewrite(c, s, nonces, column, rows, t.rows))]
    {
      ghost var before, t := tables, tables[table];
      for k := 0 to |rows|
        invariant fault.Some? ==> k <= fault.value
        invariant tables == before[table := t.(rows := Rewrite(c, s, nonces, column, rows[..k], t.rows))]
      {
        if fault == Some(k) { return false; }
        var (id, value) := rows[k];
        assert rows[..k + 1][..k] == rows[..k];
        if value.Text? {
          var ct := A.Encrypt(c, s, nonces(id), value.s);
          var updated := Update(table, column, id, ct.value);
          assert updated;
        }
      }
      assert rows[..|rows|] == rows;
      return true;
    }

    /** The transaction of backfillColumn, whatever has been written since its SELECT. */
    method RewriteColumn(c: A.Suite, s: A.State, nonces: string -> string, table: string, column: string,
                         rows: seq<(string, Value)>, fault: Option<nat>)
      returns (err: Option<A.Error>)
      requires Armed(c, s) && table in tables
      modifies this
      ensures (Db(), err) == Transaction(c, s, nonces, table, column, rows, fault, old(Db()))
      ensures err == None <==> fault == None || fault.value > |rows|
      ensures err.Some? ==> tables == old(tables) && trigger == old(trigger)
    {
      ArmedAlwaysSeals(c, s);
      var before, hadTrigger := tables, trigger;
      var auditTable := table == AUDIT_TABLE;
      if auditTable { trigger := false; }
      var ok := UpdateRows(c, s, nonces, table, column, rows, fault);
      if !ok || fault == Some(|rows|) {
        tables, trigger := before, hadTrigger;   // ROLLBACK restores the trigger with the rows
        return Some(A.ErrDatabase);
      }
      if auditTable { trigger := true; }
      return None;
    }

    /** backfillColumn, with nobody writing between its SELECT and its transaction. */
    method BackfillColumn(c: A.Suite, s: A.State, nonces: string -> string, table: string, column: string,
                          fault: Option<nat>)
      returns (err: Option<A.Error>)
      requires Armed(c, s) && Valid(Db())
      modifies this
      ensures (Db(), err) == FillColumn(c, s, nonces, table, column, fault, old(Db()))
    {
      if table !in tables { return None; }
      if column !in tables[table].columns { return Some(A.ErrDatabase); }
      var rows := Select(tables[table].rows, column);
      RewriteFills(c, s, nonces, column, tables[table]);
      err := RewriteColumn(c, s, nonces, table, column, rows, fault);
    }

    /** Backfill: the columns one after the other, stopping at the first error. */
    method Run(c: A.Suite, s: A.State, nonces: string -> (string -> string), specs: seq<string>,
               faults: string -> Option<nat>)
      returns (err: Option<A.Error>)
      requires (s.on ==> Armed(c, s)) && Valid(Db())
      modifies this
      ensures (Db(), err) == BackfillAll(c, s, nonces, specs, faults, old(Db()))
    {
      if !s.on { return None; }
      ghost var before := Db();
      for k := 0 to |specs|
        invariant Valid(Db())
        invariant FillColumns(c, s, nonces, specs, faults, before)
          == FillColumns(c, s, nonces, specs[k..], faults, Db())
      {
        var table, column, ok := SplitSpec(specs[k]);
        if !ok { return Some(A.ErrMalformedSpec); }
        ValidAfter(c, s, nonces(specs[k]), table, column, faults(specs[k]), Db());
        err := BackfillColumn(c, s, nonces(specs[k]), table, column, faults(specs[k]));
        if err.Some? { return; }
        assert specs[k..][1..] == specs[k + 1..];
      }
      return None;
    }
  }

  /** The spec names the column of the table: neither part is empty, and the first dot stands between them. */
  predicate Names(spec: string, table: string, column: string) {
    spec == table + "." + column && '.' !in table && table != "" && column != ""
  }

  /** splitSpec: the parts around the first dot, if both are there. */
  method SplitSpec(spec: string) returns (table: string, column: string, ok: bool)
    ensures ok ==> Names(spec, table, column)
    ensures ok <==> exists k :: 0 < k < |spec| - 1 && spec[k] == '.' && '.' !in spec[..k]
    ensures Parts(spec) == if ok then Some((table, column)) else None
  {
    for i := 0 to |spec|
      invariant '.' !in spec[..i]
    {
      if spec[i] == '.' {
        CutAt(spec[..i], '.', spec[i + 1..]);
        assert spec == spec[..i] + ['.'] + spec[i + 1..];
        return spec[..i], spec[i + 1..], i > 0 && i < |spec| - 1;
      }
      assert spec[..i + 1] == spec[..i] + [spec[i]];
    }
    assert spec[..|spec|] == spec;
    return "", "", false;
  }

  lemma PartsMeaning(spec: string, table: string, column: string)
    ensures Parts(spec) == Some((table, column)) <==> Names(spec, table, column)
  {
    if Names(spec, table, column) {
      assert spec == table + ['.'] + column;
      CutAt(table, '.', column);
    }
    if Parts(spec) == Some((table, column)) { assert spec == table + ['.'] + column && "." == ['.']; }
  }

  function Parts(spec: string): Option<(string, string)> {
    match Cut(spec, '.')
    case None => None
    case Some((table, column)) => if table == "" || column == "" then None else Some((table, column))
  }

  ghost function FillColumns(c: A.Suite, s: A.State, nonces: string -> (string -> string), specs: seq<string>,
                             faults: string -> Option<nat>, db: Database)
    : (Database, Option<A.Error>)
    requires Valid(db)
    decreases |specs|
  {
    if specs == [] then (db, None)
    else match Parts(specs[0])
      case None => (db, Some(A.ErrMalformedSpec))
      case Some((table, column)) =>
        var (next, err) := FillColumn(c, s, nonces(specs[0]), table, column, faults(specs[0]), db);
        ValidAfter(c, s, nonces(specs[0]), table, column, faults(specs[0]), db);
        if err.Some? then (next, err) else FillColumns(c, s, nonces, specs[1..], faults, next)
  }

  ghost function BackfillAll(c: A.Suite, s: A.State, nonces: string -> (string -> string), specs: seq<string>,
                             faults: string -> Option<nat>, db: Database)
    : (Database, Option<A.Error>)
    requires Valid(db)
  {
    if s.on then FillColumns(c, s, nonces, specs, faults, db) else (db, None)
  }

  lemma ValidAfter(c: A.Suite, s: A.State, nonces: string -> string, table: string, column: string,
                   fault: Option<nat>, db: Database)
    requires Valid(db)
    ensures Valid(FillColumn(c, s, nonces, table, column, fault, db).0)
  {
    if table in db.tables && column in db.tables[table].columns {
      var t, u := db.tables[table], FillTable(c, s, nonces, column, db.tables[table]);
      assert forall i :: 0 <= i < |t.rows| ==>
          u.rows[i].id == t.rows[i].id && u.rows[i].cells.Keys == t.rows[i].cells.Keys;
      assert ValidTable(u);
    }
  }

  // ----- Reading through the serializer is unchanged -----

  /** A cell as the application reads it: strings are decrypted. */
  function ReadCell(c: A.Suite, s: A.State, v: Value): Result<Value, A.Error> {
    if v.Text? then
      match A.Decrypt(c, s, v.s)
      case Ok(plain) => Ok(Text(plain))
      case Err(e) => Err(e)
    else Ok(v)
  }

  /** Same rows in the same order, and every cell reads the same. */
  ghost predicate SameTable(c: A.Suite, s: A.State, t: Table, u: Table) {
    && t.columns == u.columns && |t.rows| == |u.rows|
    && forall i :: 0 <= i < |t.rows| ==> SameRow(c, s, t.rows[i], u.rows[i])
  }

  ghost predicate SameRow(c: A.Suite, s: A.State, r: Row, q: Row) {
    && r.id == q.id && r.cells.Keys == q.cells.Keys
    && forall col :: col in r.cells ==> ReadCell(c, s, r.cells[col]) == ReadCell(c, s, q.cells[col])
  }

  ghost predicate SameReading(c: A.Suite, s: A.State, db: Database, other: Database) {
    && db.tables.Keys == other.tables.Keys
    && forall name :: name in db.tables ==> SameTable(c, s, db.tables[name], other.tables[name])
  }

  lemma FillRowReadsSame(c: A.Suite, s: A.State, nonces: string -> string, column: string, r: Row)
    requires Armed(c, s) && column in r.cells
    ensures SameRow(c, s, r, FillRow(c, s, nonces, column, r))
    ensures !Plain(FillRow(c, s, nonces, column, r).cells[column])
  {
    var v := r.cells[column];
    if Plain(v) {
      if HasPrefix(v.s, A.CIPHERTEXT_PREFIX) { A.CiphertextIsLikeCiphertext(v.s); }
      var ct := c.seal(s.dek.value, nonces(r.id), v.s).value;
      assert c.open(s.dek.value, ct) == Some(v.s);
      A.OpenFrame(c, s.dek.value, ct);
      A.CiphertextIsLikeCiphertext(A.Frame(c.encode(ct)));
    }
  }

  lemma FillColumnReadsSame(c: A.Suite, s: A.State, nonces: string -> string, table: string, column: string,
                            fault: Option<nat>, db: Database)
    requires Armed(c, s) && Valid(db)
    ensures SameReading(c, s, db, FillColumn(c, s, nonces, table, column, fault, db).0)
  {
    if table in db.tables && column in db.tables[table].columns {
      var t := db.tables[table];
      forall i | 0 <= i < |t.rows| ensures SameRow(c, s, t.rows[i], FillRow(c, s, nonces, column, t.rows[i])) {
        FillRowReadsSame(c, s, nonces, column, t.rows[i]);
      }
      assert SameTable(c, s, t, FillTable(c, s, nonces, column, t));
    }
  }

  lemma SameReadingTransitive(c: A.Suite, s: A.State, x: Database, y: Database, z: Database)
    requires SameReading(c, s, x, y) && SameReading(c, s, y, z)
    ensures SameReading(c, s, x, z)
  {
    forall name | name in x.tables ensures SameTable(c, s, x.tables[name], z.tables[name]) {
      var t, u, v := x.tables[name], y.tables[name], z.tables[name];
      forall i | 0 <= i < |t.rows| ensures SameRow(c, s, t.rows[i], v.rows[i]) {
        assert SameRow(c, s, t.rows[i], u.rows[i]) && SameRow(c, s, u.rows[i], v.rows[i]);
      }
    }
  }

  /** Backfill, whether it succeeds or fails anywhere, changes no row id, no row count and no value as read. */
  lemma {:induction false} BackfillReadsSame(c: A.Suite, s: A.State, nonces: string -> (string -> string),
                                             specs: seq<string>, faults: string -> Option<nat>, db: Database)
    requires Armed(c, s) && Valid(db)
    ensures Valid(FillColumns(c, s, nonces, specs, faults, db).0)
    ensures SameReading(c, s, db, FillColumns(c, s, nonces, specs, faults, db).0)
    decreases |specs|
  {
    if specs != [] && Parts(specs[0]).Some? {
      var (table, column) := Parts(specs[0]).value;
      var next := FillColumn(c, s, nonces(specs[0]), table, column, faults(specs[0]), db);
      ValidAfter(c, s, nonces(specs[0]), table, column, faults(specs[0]), db);
      FillColumnReadsSame(c, s, nonces(specs[0]), table, column, faults(specs[0]), db);
      if next.1.None? {
        BackfillReadsSame(c, s, nonces, specs[1..], faults, next.0);
        SameReadingTransitive(c, s, db, next.0, FillColumns(c, s, nonces, specs, faults, db).0);
      }
    }
  }

  // ----- Writers between the SELECT and the transaction -----

  /** The SELECT saw a plain string in the row. */
  ghost predicate SeenPlain(seen: Table, column: string, id: string, v: Value) {
    exists j :: 0 <= j < |seen.rows| && column in seen.rows[j].cells && seen.rows[j].id == id
      && seen.rows[j].cells[column] == v && Plain(v)
  }

  lemma SeenPlainIsPicked(seen: Table, column: string, id: string, v: Value) returns (k: nat)
    requires ValidTable(seen) && column in seen.columns && SeenPlain(seen, column, id, v)
    ensures PickedFor(Select(seen.rows, column), k, id) && Select(seen.rows, column)[k].1 == v
  {
    hide Select;
    var j :| 0 <= j < |seen.rows| && column in seen.rows[j].cells && seen.rows[j].id == id
      && seen.rows[j].cells[column] == v && Plain(v);
    SelectComplete(seen.rows, column, j);
    k :| 0 <= k < |Select(seen.rows, column)| && Select(seen.rows, column)[k] == (id, v);
  }

  lemma PickedIsSeenPlain(seen: Table, column: string, id: string, k: nat)
    requires ValidTable(seen) && column in seen.columns && PickedFor(Select(seen.rows, column), k, id)
    ensures SeenPlain(seen, column, id, Select(seen.rows, column)[k].1)
  {
    hide Select;
    var j := SelectSound(seen.rows, column, k);
  }

  lemma SealedReadsBack(c: A.Suite, s: A.State, nonce: string, v: Value)
    requires Armed(c, s) && Plain(v)
    ensures ReadCell(c, s, Text(Sealed(c, s, nonce, v))) == Ok(v)
  {
    var ct := c.seal(s.dek.value, nonce, v.s).value;
    assert c.open(s.dek.value, ct) == Some(v.s);
    A.OpenFrame(c, s.dek.value, ct);
  }

  /** Whatever has been inserted, deleted or written since the SELECT saw the table: the transaction leaves every row
      where it is and every other column alone, and changes what a cell of its column reads as exactly if the SELECT saw
      a plain string there and the cell now reads as something else.  That write is lost: the cell reads as what the
      SELECT saw. */
  lemma LostWriteIff(c: A.Suite, s: A.State, nonces: string -> string, column: string, seen: Table, now: Table, i: nat)
    requires Armed(c, s) && ValidTable(seen) && ValidTable(now) && column in seen.columns && column in now.columns
    requires i < |now.rows|
    ensures var was := now.rows[i];
      var got := Rewrite(c, s, nonces, column, Select(seen.rows, column), now.rows)[i];
      && got.id == was.id && column in got.cells && got.cells == was.cells[column := got.cells[column]]
      && (ReadCell(c, s, got.cells[column]) != ReadCell(c, s, was.cells[column]) <==>
            exists v :: SeenPlain(seen, column, was.id, v) && ReadCell(c, s, was.cells[column]) != Ok(v))
      && (forall v :: SeenPlain(seen, column, was.id, v) ==> ReadCell(c, s, got.cells[column]) == Ok(v))
  {
    hide Select, Sealed, Rewrite, ReadCell, A.NeedsSealing;
    var picked, was := Select(seen.rows, column), now.rows[i];
    SelectDistinct(seen.rows, column);
    RewriteAt(c, s, nonces, column, picked, now.rows, i);
    forall v | SeenPlain(seen, column, was.id, v)
      ensures ReadCell(c, s, Text(Sealed(c, s, nonces(was.id), v))) == Ok(v)
      ensures Rewrite(c, s, nonces, column, picked, now.rows)[i]
           == SetCell(was, column, Sealed(c, s, nonces(was.id), v))
    {
      var k := SeenPlainIsPicked(seen, column, was.id, v);
      SealedReadsBack(c, s, nonces(was.id), v);
    }
    if k :| PickedFor(picked, k, was.id) {
      PickedIsSeenPlain(seen, column, was.id, k);
    } else {
      assert was.cells == was.cells[column := was.cells[column]];
    }
  }

  function Notes(text: string): Table {
    Table({"note"}, [Row("1", map["note" := Text(text)])])
  }

  /** Such a write: the row said "old" at the SELECT and "new" when the transaction began, and says "old" after it. */
  lemma WriteCanBeLost(c: A.Suite, s: A.State, nonces: string -> string)
    requires Armed(c, s)
    ensures ReadCell(c, s, Notes("new").rows[0].cells["note"]) == Ok(Text("new"))
    ensures var after := Rewrite(c, s, nonces, "note", Select(Notes("old").rows, "note"), Notes("new").rows)[0];
      "note" in after.cells && ReadCell(c, s, after.cells["note"]) == Ok(Text("old"))
  {
    hide Select, Rewrite;
    var seen := Notes("old");
    LostWriteIff(c, s, nonces, "note", seen, Notes("new"), 0);
    assert Plain(Text("old"));
    assert "note" in seen.rows[0].cells && seen.rows[0].cells["note"] == Text("old");
    assert SeenPlain(seen, "note", "1", Text("old"));
  }

  // ----- The trigger -----

  /** If audit_events was protected before, it is in every committed state: those are the results for the
      prefixes of the column list, with or without a failure on the way. */
  lemma {:induction false} TriggerSurvives(c: A.Suite, s: A.State, nonces: string -> (string -> string),
                                           specs: seq<string>, faults: string -> Option<nat>, db: Database)
    requires Valid(db)
    ensures db.trigger ==> FillColumns(c, s, nonces, specs, faults, db).0.trigger
    decreases |specs|
  {
    if specs != [] && Parts(specs[0]).Some? {
      var (table, column) := Parts(specs[0]).value;
      var next := FillColumn(c, s, nonces(specs[0]), table, column, faults(specs[0]), db);
      ValidAfter(c, s, nonces(specs[0]), table, column, faults(specs[0]), db);
      if next.1.None? {
        TriggerSurvives(c, s, nonces, specs[1..], faults, next.0);
      }
    }
  }

  // ----- A successful run completes the work -----

  /** The column holds no value the backfill would still rewrite. */
  ghost predicate Filled(db: Database, spec: string) {
    Parts(spec).Some? &&
    var (table, column) := Parts(spec).value;
    table in db.tables ==>
      && column in db.tables[table].columns
      && (forall i :: 0 <= i < |db.tables[table].rows| && column in db.tables[table].rows[i].cells ==>
            !Plain(db.tables[table].rows[i].cells[column]))
      && (table == AUDIT_TABLE ==> db.trigger)
  }

  lemma FillColumnFills(c: A.Suite, s: A.State, nonces: string -> string, spec: string, fault: Option<nat>,
                        db: Database)
    requires Armed(c, s) && Valid(db) && Parts(spec).Some?
    requires FillColumn(c, s, nonces, Parts(spec).value.0, Parts(spec).value.1, fault, db).1.None?
    ensures Filled(FillColumn(c, s, nonces, Parts(spec).value.0, Parts(spec).value.1, fault, db).0, spec)
  {
    var (table, column) := Parts(spec).value;
    if table in db.tables {
      var t := db.tables[table];
      forall i | 0 <= i < |t.rows| ensures !Plain(FillRow(c, s, nonces, column, t.rows[i]).cells[column]) {
        FillRowReadsSame(c, s, nonces, column, t.rows[i]);
      }
    }
  }

  lemma FillColumnKeepsFilled(c: A.Suite, s: A.State, nonces: string -> string, table: string, column: string,
                              fault: Option<nat>, db: Database, spec: string)
    requires Armed(c, s) && Valid(db) && Filled(db, spec)
    ensures Filled(FillColumn(c, s, nonces, table, column, fault, db).0, spec)
  {
    if table in db.tables && column in db.tables[table].columns {
      var t := db.tables[table];
      forall i | 0 <= i < |t.rows|
        ensures !Plain(FillRow(c, s, nonces, column, t.rows[i]).cells[column])
      {
        FillRowReadsSame(c, s, nonces, column, t.rows[i]);
      }
    }
  }

  lemma {:induction false} FillColumnsKeepsFilled(c: A.Suite, s: A.State, nonces: string -> (string -> string),
                                                  specs: seq<string>, faults: string -> Option<nat>, db: Database,
                                                  spec: string)
    requires Armed(c, s) && Valid(db) && Filled(db, spec)
    ensures Filled(FillColumns(c, s, nonces, specs, faults, db).0, spec)
    decreases |specs|
  {
    if specs != [] && Parts(specs[0]).Some? {
      var (table, column) := Parts(specs[0]).value;
      var next := FillColumn(c, s, nonces(specs[0]), table, column, faults(specs[0]), db);
      ValidAfter(c, s, nonces(specs[0]), table, column, faults(specs[0]), db);
      FillColumnKeepsFilled(c, s, nonces(specs[0]), table, column, faults(specs[0]), db, spec);
      if next.1.None? {
        FillColumnsKeepsFilled(c, s, nonces, specs[1..], faults, next.0, spec);
      }
    }
  }

  /** A run that reports success leaves every listed column filled. */
  lemma {:induction false} SuccessFillsAll(c: A.Suite, s: A.State, nonces: string -> (string -> string),
                                           specs: seq<string>, faults: string -> Option<nat>, db: Database)
    requires Armed(c, s) && Valid(db) && FillColumns(c, s, nonces, specs, faults, db).1.None?
    ensures forall k :: 0 <= k < |specs| ==> Filled(FillColumns(c, s, nonces, specs, faults, db).0, specs[k])
    decreases |specs|
  {
    if specs != [] {
      var (table, column) := Parts(specs[0]).value;
      var next := FillColumn(c, s, nonces(specs[0]), table, column, faults(specs[0]), db);
      ValidAfter(c, s, nonces(specs[0]), table, column, faults(specs[0]), db);
      FillColumnFills(c, s, nonces(specs[0]), specs[0], faults(specs[0]), db);
      FillColumnsKeepsFilled(c, s, nonces, specs[1..], faults, next.0, specs[0]);
      SuccessFillsAll(c, s, nonces, specs[1..], faults, next.0);
    }
  }

  lemma FilledColumnIsStable(c: A.Suite, s: A.State, nonces: string -> string, spec: string, db: Database)
    requires Valid(db) && Filled(db, spec)
    ensures FillColumn(c, s, nonces, Parts(spec).value.0, Parts(spec).value.1, None, db) == (db, None)
  {
    var (table, column) := Parts(spec).value;
    if table in db.tables {
      var t := db.tables[table];
      assert FillTable(c, s, nonces, column, t).rows == t.rows;
      assert db.tables[table := t] == db.tables;
    }
  }

  lemma {:induction false} FilledColumnsAreStable(c: A.Suite, s: A.State, nonces: string -> (string -> string),
                                                  specs: seq<string>, faults: string -> Option<nat>, db: Database)
    requires Valid(db) && (forall spec :: faults(spec) == None) && forall k :: 0 <= k < |specs| ==> Filled(db, specs[k])
    ensures FillColumns(c, s, nonces, specs, faults, db) == (db, None)
    decreases |specs|
  {
    if specs != [] {
      FilledColumnIsStable(c, s, nonces(specs[0]), specs[0], db);
      FilledColumnsAreStable(c, s, nonces, specs[1..], faults, db);
    }
  }

  /** After a successful run, running again changes nothing at all, whatever nonces it would draw. */
  lemma RerunChangesNothing(c: A.Suite, s: A.State, nonces: string -> (string -> string),
                            again: string -> (string -> string),
                            specs: seq<string>, faults: string -> Option<nat>, noFaults: string -> Option<nat>,
                            db: Database)
    requires Armed(c, s) && Valid(db) && BackfillAll(c, s, nonces, specs, faults, db).1.None?
    requires forall spec :: noFaults(spec) == None
    ensures var done := BackfillAll(c, s, nonces, specs, faults, db).0;
      Valid(done) && BackfillAll(c, s, again, specs, noFaults, done) == (done, None)
  {
    BackfillReadsSame(c, s, nonces, specs, faults, db);
    SuccessFillsAll(c, s, nonces, specs, faults, db);
    FilledColumnsAreStable(c, s, again, specs, noFaults, BackfillAll(c, s, nonces, specs, faults, db).0);
  }

  /** The list is well formed and the columns of the tables that exist are there. */
  ghost predicate Ready(db: Database, specs: seq<string>) {
    forall k :: 0 <= k < |specs| ==>
      Parts(specs[k]).Some? &&
      var (table, column) := Parts(specs[k]).value; table in db.tables ==> column in db.tables[table].columns
  }

  lemma {:induction false} ReadySucceeds(c: A.Suite, s: A.State, nonces: string -> (string -> string),
                                         specs: seq<string>, faults: string -> Option<nat>, db: Database)
    requires Armed(c, s) && Valid(db) && Ready(db, specs) && forall spec :: faults(spec) == None
    ensures FillColumns(c, s, nonces, specs, faults, db).1.None?
    decreases |specs|
  {
    if specs != [] {
      var (table, column) := Parts(specs[0]).value;
      var next := FillColumn(c, s, nonces(specs[0]), table, column, faults(specs[0]), db);
      ValidAfter(c, s, nonces(specs[0]), table, column, faults(specs[0]), db);
      FillColumnReadsSame(c, s, nonces(specs[0]), table, column, faults(specs[0]), db);
      assert Ready(next.0, specs[1..]);
      ReadySucceeds(c, s, nonces, specs[1..], faults, next.0);
    }
  }

  /** However a first run failed, a second run without faults completes the work: every listed column is
      filled, and everything still reads as it did before the first run. */
  lemma RerunAfterFailureCompletes(c: A.Suite, s: A.State, nonces: string -> (string -> string),
                                   again: string -> (string -> string),
                                   specs: seq<string>, faults: string -> Option<nat>,
                                   noFaults: string -> Option<nat>, db: Database)
    requires Armed(c, s) && Valid(db) && Ready(db, specs) && forall spec :: noFaults(spec) == None
    ensures var half := BackfillAll(c, s, nonces, specs, faults, db).0;
      && Valid(half)
      && BackfillAll(c, s, again, specs, noFaults, half).1.None?
      && SameReading(c, s, db, BackfillAll(c, s, again, specs, noFaults, half).0)
      && forall k :: 0 <= k < |specs| ==> Filled(BackfillAll(c, s, again, specs, noFaults, half).0, specs[k])
  {
    var half := BackfillAll(c, s, nonces, specs, faults, db).0;
    BackfillReadsSame(c, s, nonces, specs, faults, db);
    assert Ready(half, specs);
    ReadySucceeds(c, s, again, specs, noFaults, half);
    BackfillReadsSame(c, s, again, specs, noFaults, half);
    SuccessFillsAll(c, s, again, specs, noFaults, half);
    SameReadingTransitive(c, s, db, half, BackfillAll(c, s, again, specs, noFaults, half).0);
  }

  /** A failed run leaves the database as the columns before the failing one have left it: that one is rolled back
      whole. */
  lemma {:induction false} FailedColumnIsRolledBack(c: A.Suite, s: A.State, nonces: string -> (string -> string),
                                                    specs: seq<string>, faults: string -> Option<nat>,
                                                    db: Database) returns (n: nat)
    requires Valid(db) && BackfillAll(c, s, nonces, specs, faults, db).1.Some?
    ensures n < |specs|
    ensures BackfillAll(c, s, nonces, specs[..n], faults, db) ==
      (BackfillAll(c, s, nonces, specs, faults, db).0, None)
    decreases |specs|
  {
    hide FillColumn, Parts, Valid;
    if Parts(specs[0]).None? {
      n := 0;
    } else {
      var (table, column) := Parts(specs[0]).value;
      var next := FillColumn(c, s, nonces(specs[0]), table, column, faults(specs[0]), db);
      ValidAfter(c, s, nonces(specs[0]), table, column, faults(specs[0]), db);
      if next.1.Some? {
        FailedColumnChangesNothing(c, s, nonces(specs[0]), table, column, faults(specs[0]), db);
        n := 0;
      } else {
        var m := FailedColumnIsRolledBack(c, s, nonces, specs[1..], faults, next.0);
        n := m + 1;
        assert specs[..n][0] == specs[0] && specs[..n][1..] == specs[1..][..m];
      }
    }
  }

  lemma FailedColumnChangesNothing(c: A.Suite, s: A.State, nonces: string -> string, table: string, column: string,
                                   fault: Option<nat>, db: Database)
    requires Valid(db) && FillColumn(c, s, nonces, table, column, fault, db).1.Some?
    ensures FillColumn(c, s, nonces, table, column, fault, db).0 == db
  {
  }

  /** What becomes of a cell: in a listed column a value that needs sealing becomes ciphertext; any other cell stays. */
  predicate Settled(before: Value, after: Value, listed: bool) {
    if listed && Plain(before) then after.Text? && HasPrefix(after.s, A.CIPHERTEXT_PREFIX) else after == before
  }

  /** The column is on the list. */
  predicate Listed(specs: seq<string>, table: string, column: string) {
    exists k :: 0 <= k < |specs| && Names(specs[k], table, column)
  }

  ghost predicate HasCell(db: Database, table: string, column: string, i: nat) {
    table in db.tables && i < |db.tables[table].rows| && column in db.tables[table].rows[i].cells
  }

  function Cell(db: Database, table: string, column: string, i: nat): Value
    requires HasCell(db, table, column, i)
  {
    db.tables[table].rows[i].cells[column]
  }

  /** Only the backfilled column of a table changes. */
  lemma ColumnSettles(c: A.Suite, s: A.State, nonces: string -> string, spec: (string, string), fault: Option<nat>,
                      db: Database, table: string, column: string, i: nat)
    requires Armed(c, s) && Valid(db) && HasCell(db, table, column, i)
    requires FillColumn(c, s, nonces, spec.0, spec.1, fault, db).1.None?
    ensures var next := FillColumn(c, s, nonces, spec.0, spec.1, fault, db).0;
      HasCell(next, table, column, i)
          && Settled(Cell(db, table, column, i), Cell(next, table, column, i), spec == (table, column))
  {
    if spec == (table, column) && Plain(Cell(db, table, column, i)) {
      var r := db.tables[table].rows[i];
      var ct := c.seal(s.dek.value, nonces(r.id), r.cells[column].s).value;
      assert c.seal(s.dek.value, nonces(r.id), r.cells[column].s).Some?;
      A.OpenFrame(c, s.dek.value, ct);
      assert Sealed(c, s, nonces(r.id), r.cells[column]) == A.Frame(c.encode(ct));
    }
  }

  lemma SettledIsStable(v: Value)
    requires v.Text? && HasPrefix(v.s, A.CIPHERTEXT_PREFIX)
    ensures !Plain(v)
  {
    A.CiphertextIsLikeCiphertext(v.s);
  }

  /** A successful run settles every cell. */
  lemma {:induction false} RunSettles(c: A.Suite, s: A.State, nonces: string -> (string -> string), specs: seq<string>,
                                      faults: string -> Option<nat>, db: Database, table: string, column: string,
                                      i: nat)
    requires Armed(c, s) && Valid(db) && HasCell(db, table, column, i)
    requires FillColumns(c, s, nonces, specs, faults, db).1.None?
    ensures var done := FillColumns(c, s, nonces, specs, faults, db).0;
      && HasCell(done, table, column, i)
      && Settled(Cell(db, table, column, i), Cell(done, table, column, i), Listed(specs, table, column))
    decreases |specs|
  {
    hide FillColumn, Valid, Plain, HasCell;
    if specs != [] {
      var spec := Parts(specs[0]).value;
      var next := FillColumn(c, s, nonces(specs[0]), spec.0, spec.1, faults(specs[0]), db);
      ValidAfter(c, s, nonces(specs[0]), spec.0, spec.1, faults(specs[0]), db);
      ColumnSettles(c, s, nonces(specs[0]), spec, faults(specs[0]), db, table, column, i);
      RunSettles(c, s, nonces, specs[1..], faults, next.0, table, column, i);
      ListedSplit(specs, table, column);
      var before, between := Cell(db, table, column, i), Cell(next.0, table, column, i);
      if spec == (table, column) && Plain(before) { SettledIsStable(between); }
    }
  }

  lemma ListedSplit(specs: seq<string>, table: string, column: string)
    requires specs != []
    ensures Listed(specs, table, column) <==>
      Parts(specs[0]) == Some((table, column)) || Listed(specs[1..], table, column)
  {
    hide Parts, Names;
    PartsMeaning(specs[0], table, column);
    if Listed(specs, table, column) {
      var k :| 0 <= k < |specs| && Names(specs[k], table, column);
      if k > 0 { assert specs[1..][k - 1] == specs[k]; }
    }
    if Listed(specs[1..], table, column) {
      var k :| 0 <= k < |specs[1..]| && Names(specs[1..][k], table, column);
      assert specs[k + 1] == specs[1..][k];
    }
  }

  /** After success a listed column, named as table + "." + column, has nothing left to select but values that are no
      strings; and audit_events is protected again. */
  lemma SuccessFillsColumn(c: A.Suite, s: A.State, nonces: string -> (string -> string), specs: seq<string>,
                           faults: string -> Option<nat>, db: Database, table: string, column: string, k: nat)
    requires Armed(c, s) && Valid(db) && BackfillAll(c, s, nonces, specs, faults, db).1.None?
    requires k < |specs| && specs[k] == table + "." + column && '.' !in table && table != "" && column != ""
    ensures var done := BackfillAll(c, s, nonces, specs, faults, db).0;
      table in db.tables ==>
        && table in done.tables && |done.tables[table].rows| == |db.tables[table].rows|
        && (forall i :: 0 <= i < |done.tables[table].rows| ==>
              && column in done.tables[table].rows[i].cells
              && var v := done.tables[table].rows[i].cells[column];
              v.Text? ==> v.s == "" || A.LikeCiphertext(v.s))
        && (table == "audit_events" ==> done.trigger)
  {
    hide FillColumns, Parts;
    PartsMeaning(specs[k], table, column);
    SuccessFillsAll(c, s, nonces, specs, faults, db);
    BackfillReadsSame(c, s, nonces, specs, faults, db);
  }

  /** The transaction of a column fails if any of its UPDATEs fails, or the commit after them: with nothing to rewrite
      that is its first statement. */
  lemma EveryStatementCounts(c: A.Suite, s: A.State, nonces: string -> (string -> string), spec: string,
                             faults: string -> Option<nat>, db: Database, table: string, column: string)
    requires Valid(db) && s.on && Names(spec, table, column)
    requires table in db.tables && column in db.tables[table].columns
    ensures var (done, err) := BackfillAll(c, s, nonces, [spec], faults, db);
      && (faults(spec) == Some(0) ==> (done, err) == (db, Some(A.ErrDatabase)))
      && (faults(spec) == Some(|Select(db.tables[table].rows, column)|) ==> (done, err) == (db, Some(A.ErrDatabase)))
      && (faults(spec) == None ==> err == None)
  {
    hide Names, Select;
    PartsMeaning(spec, table, column);
    ValidAfter(c, s, nonces(spec), table, column, faults(spec), db);
    var next := FillColumn(c, s, nonces(spec), table, column, faults(spec), db);
    assert [spec][1..] == [] && FillColumns(c, s, nonces, [], faults, next.0) == (next.0, None);
  }

  /** A run is refused at the first name of the wrong form, or of a column its table does not have; a table that is not
      there is passed over; and a disarmed engine does nothing. */
  lemma OddSpecs(c: A.Suite, s: A.State, nonces: string -> (string -> string), spec: string, rest: seq<string>,
                 faults: string -> Option<nat>, db: Database, table: string, column: string)
    requires Valid(db)
    ensures !s.on ==> BackfillAll(c, s, nonces, [spec] + rest, faults, db) == (db, None)
    ensures s.on && (forall t, k :: !Names(spec, t, k)) ==>
      BackfillAll(c, s, nonces, [spec] + rest, faults, db) == (db, Some(A.ErrMalformedSpec))
    ensures s.on && Names(spec, table, column) && table !in db.tables ==>
      BackfillAll(c, s, nonces, [spec] + rest, faults, db) == BackfillAll(c, s, nonces, rest, faults, db)
    ensures s.on && Names(spec, table, column) && table in db.tables && column !in db.tables[table].columns ==>
      BackfillAll(c, s, nonces, [spec] + rest, faults, db) == (db, Some(A.ErrDatabase))
  {
    hide Names;
    assert ([spec] + rest)[1..] == rest;
    PartsMeaning(spec, table, column);
    if Parts(spec).Some? { PartsMeaning(spec, Parts(spec).value.0, Parts(spec).value.1); }
  }

  /** A successful run changes a cell of a listed column exactly when it held a value that needs sealing.  What it
      leaves unencrypted there is exactly the strings that spelled the prefix in another letter case before, which LIKE
      takes for ciphertext and HasPrefix does not. */
  lemma LeftInPlaintext(c: A.Suite, s: A.State, nonces: string -> (string -> string), specs: seq<string>,
                        faults: string -> Option<nat>, db: Database, table: string, column: string, i: nat)
    requires Armed(c, s) && Valid(db) && Listed(specs, table, column) && HasCell(db, table, column, i)
    requires BackfillAll(c, s, nonces, specs, faults, db).1.None?
    ensures var done := BackfillAll(c, s, nonces, specs, faults, db).0;
      && HasCell(done, table, column, i)
      && var (before, after) := (Cell(db, table, column, i), Cell(done, table, column, i));
      && (after == before <==> !(before.Text? && before.s != "" && !A.LikeCiphertext(before.s)))
      && (after.Text? && after.s != "" && !HasPrefix(after.s, A.CIPHERTEXT_PREFIX)
          <==> before.Text? && A.LikeCiphertext(before.s) && !HasPrefix(before.s, A.CIPHERTEXT_PREFIX))
  {
    RunSettles(c, s, nonces, specs, faults, db, table, column, i);
    var before, after := Cell(db, table, column, i),
        Cell(BackfillAll(c, s, nonces, specs, faults, db).0, table, column, i);
    if Plain(before) { SettledIsStable(after); }
  }

  /** To a value on its own, the backfill does what AtRest's runs say it does. */
  lemma FillRowRefills(c: A.Suite, s: A.State, nonces: string -> string, column: string, r: Row, v: A.Stored)
    requires column in r.cells && r.cells[column] == Text(v.text)
    ensures FillRow(c, s, nonces, column, r).cells[column] == Text(A.Refilled(c, s, nonces(r.id), v).text)
  {
  }

  /** Such a value exists: it is neither selected nor ciphertext, so no run ever touches it. */
  lemma UpperCasePrefixIsNeverEncrypted(c: A.Suite, s: A.State, nonces: string -> string, column: string,
                                        rest: string, r: Row)
    requires column in r.cells && r.cells[column] == Text("ENCV1:" + rest)
    ensures FillRow(c, s, nonces, column, r) == r && ReadCell(c, s, r.cells[column]) == Ok(r.cells[column])
  {
    var v := "ENCV1:" + rest;
    assert v[..6] == "ENCV1:" && ToLower("ENCV1:") == "encv1:" == ToLower(A.CIPHERTEXT_PREFIX);
    assert v[0] == 'E' && A.CIPHERTEXT_PREFIX[0] == 'e';
  }
}
