/** The activities change feed: pages of rows strictly after a cursor on (updated_at, id), soft-deleted rows
    included, and a replica that upserts page after page while the table keeps changing. */
module ChangeFeed {
  import opened Prelude

  datatype Row = Row(id: nat, user: nat, updatedAt: int, deletedAt: Option<int>, payload: string, deleted: bool)

  /** The rows by id.  deleted is not a column: it is false until a handler sets it. */
  type Table = map<nat, Row>

  ghost predicate WellFormed(t: Table) {
    forall id :: id in t ==> t[id].id == id && !t[id].deleted
  }

  /** A position in the feed. */
  datatype Key = Key(at: int, id: nat)

  function KeyOf(r: Row): Key {
    Key(r.updatedAt, r.id)
  }

  /** The row-value comparison (updated_at, id) < (?, ?). */
  predicate Less(a: Key, b: Key) {
    a.at < b.at || (a.at == b.at && a.id < b.id)
  }

  /** cursorPredicate: strictly after the cursor; without one, everywhere. */
  predicate After(cursor: Option<Key>, k: Key) {
    cursor.Some? ==> Less(cursor.value, k)
  }

  function Marked(r: Row): Row {
    r.(deleted := r.deletedAt.Some?)
  }

  predicate Ascending(rows: seq<Row>) {
    forall i, j :: 0 <= i < j < |rows| ==> Less(KeyOf(rows[i]), KeyOf(rows[j]))
  }

  predicate Listed(rows: seq<Row>, r: Row) {
    exists i :: 0 <= i < |rows| && rows[i] == r
  }

  /** Row id belongs to the user's feed after the cursor. */
  predicate Due(t: Table, user: nat, cursor: Option<Key>, id: nat) {
    id in t && t[id].user == user && After(cursor, KeyOf(t[id]))
  }

  /** What the query returns: the first n due rows in ascending order (unscoped, so tombstones too). */
  ghost predicate Found(t: Table, user: nat, cursor: Option<Key>, n: nat, rows: seq<Row>) {
    && |rows| <= n
    && Ascending(rows)
    && (forall i :: 0 <= i < |rows| ==> Due(t, user, cursor, rows[i].id) && rows[i] == t[rows[i].id])
    && (forall id :: Due(t, user, cursor, id) ==>
          Listed(rows, t[id]) || (|rows| == n > 0 && Less(KeyOf(rows[n - 1]), KeyOf(t[id]))))
  }

  datatype Page = Page(rows: seq<Row>, next: Option<Key>)

  /** The page reaches at least as far as k. */
  predicate Reaches(p: Page, k: Key) {
    p.next.Some? ==> !Less(p.next.value, k)
  }

  /** A page for a cursor: marked due rows in ascending order, none missed as far as the page reaches; a next cursor
      is the position of the last row of a full page with more rows to come, and no next cursor means that was all. */
  ghost predicate Answers(t: Table, user: nat, cursor: Option<Key>, limit: nat, p: Page) {
    && |p.rows| <= limit
    && Ascending(p.rows)
    && (forall i :: 0 <= i < |p.rows| ==> Due(t, user, cursor, p.rows[i].id) && p.rows[i] == Marked(t[p.rows[i].id]))
    && (forall id :: Due(t, user, cursor, id) && Reaches(p, KeyOf(t[id])) ==> Listed(p.rows, Marked(t[id])))
    && (p.next.Some? ==>
          && |p.rows| == limit > 0
          && p.next.value == KeyOf(p.rows[limit - 1])
          && exists id :: Due(t, user, cursor, id) && !Reaches(p, KeyOf(t[id])))
  }

  /** What the user sees of a row: the row itself, marked as deleted exactly if it is soft-deleted. */
  predicate Delivers(t: Table, user: nat, r: Row) {
    && r.id in t && t[r.id].user == user
    && r.updatedAt == t[r.id].updatedAt && r.payload == t[r.id].payload && r.user == user
    && r.deletedAt == t[r.id].deletedAt && (r.deleted <==> t[r.id].deletedAt != None)
  }

  /** A page, spelled out: rows of the user strictly after the cursor, by time and then by id, each as it is in the
      table and marked as deleted exactly if it is soft-deleted. */
  lemma PageContents(t: Table, user: nat, cursor: Option<Key>, limit: nat, p: Page)
    requires WellFormed(t) && Answers(t, user, cursor, limit, p)
    ensures forall i :: 0 <= i < |p.rows| ==> Delivers(t, user, p.rows[i])
    ensures forall i :: 0 <= i < |p.rows| && cursor.Some? ==>
      cursor.value.at < p.rows[i].updatedAt
        || (cursor.value.at == p.rows[i].updatedAt && cursor.value.id < p.rows[i].id)
    ensures forall i, j :: 0 <= i < j < |p.rows| ==>
      p.rows[i].updatedAt < p.rows[j].updatedAt
        || (p.rows[i].updatedAt == p.rows[j].updatedAt && p.rows[i].id < p.rows[j].id)
  {
    forall i | 0 <= i < |p.rows| ensures Delivers(t, user, p.rows[i]) {
      assert Due(t, user, cursor, p.rows[i].id);
    }
  }

  // ----- The handler -----

  /** GetActivities with ?since=: cut the extra row off, point at the last row kept, mark the tombstones. */
  method GetActivitiesSince(ghost t: Table, ghost user: nat, ghost cursor: Option<Key>, limit: nat, found: seq<Row>)
    returns (page: Page)
    requires WellFormed(t) && limit > 0 && Found(t, user, cursor, limit + 1, found)
    ensures Answers(t, user, cursor, limit, page)
    ensures forall i :: 0 <= i < |page.rows| ==> Delivers(t, user, page.rows[i])
  {
    var activities := found;
    var nextCursor := None;
    if |activities| > limit {
      activities := activities[..limit];
      nextCursor := Some(KeyOf(activities[limit - 1]));
    }
    ghost var kept := activities;
    for i := 0 to |activities|
      invariant |activities| == |kept|
      invariant forall j :: 0 <= j < |kept| ==> activities[j] == if j < i then Marked(kept[j]) else kept[j]
    {
      var deleted := activities[i].deletedAt.Some?;
      activities := activities[i := activities[i].(deleted := deleted)];
    }
    page := Page(activities, nextCursor);
    CutAnswers(t, user, cursor, limit, found, page);
    PageContents(t, user, cursor, limit, page);
  }

  lemma CutAnswers(t: Table, user: nat, cursor: Option<Key>, limit: nat, found: seq<Row>, page: Page)
    requires WellFormed(t) && limit > 0 && Found(t, user, cursor, limit + 1, found)
    requires |page.rows| == (if |found| > limit then limit else |found|)
    requires forall j :: 0 <= j < |page.rows| ==> page.rows[j] == Marked(found[j])
    requires page.next == if |found| > limit then Some(KeyOf(found[limit - 1])) else None
    ensures Answers(t, user, cursor, limit, page)
  {
    forall id | Due(t, user, cursor, id) && Reaches(page, KeyOf(t[id])) ensures Listed(page.rows, Marked(t[id])) {
      CutReaches(t, user, cursor, limit, found, page, id);
    }
    if |found| > limit {
      assert Due(t, user, cursor, found[limit].id) && !Reaches(page, KeyOf(t[found[limit].id]));
    }
  }

  lemma CutReaches(t: Table, user: nat, cursor: Option<Key>, limit: nat, found: seq<Row>, page: Page, id: nat)
    requires WellFormed(t) && limit > 0 && Found(t, user, cursor, limit + 1, found)
    requires |page.rows| == (if |found| > limit then limit else |found|)
    requires forall j :: 0 <= j < |page.rows| ==> page.rows[j] == Marked(found[j])
    requires page.next == if |found| > limit then Some(KeyOf(found[limit - 1])) else None
    requires Due(t, user, cursor, id) && Reaches(page, KeyOf(t[id]))
    ensures Listed(page.rows, Marked(t[id]))
  {
    if |found| == limit + 1 { assert Less(KeyOf(found[limit - 1]), KeyOf(found[limit])); }
    assert Listed(found, t[id]);
    var i :| 0 <= i < |found| && found[i] == t[id];
    assert page.rows[i] == Marked(t[id]);
  }

  /** Ascending lists of the same rows are the same list. */
  lemma {:induction false} AscendingIsUnique(a: seq<Row>, b: seq<Row>)
    requires Ascending(a) && Ascending(b)
    requires forall i :: 0 <= i < |a| ==> Listed(b, a[i])
    requires forall i :: 0 <= i < |b| ==> Listed(a, b[i])
    ensures a == b
  {
    assert (a != [] ==> Listed(b, a[0])) && (b != [] ==> Listed(a, b[0]));
    if a != [] {
      HeadsAgree(a, b);
      TailListed(a, b);
      TailListed(b, a);
      AscendingIsUnique(a[1..], b[1..]);
      assert a == [a[0]] + a[1..] && b == [b[0]] + b[1..];
    }
  }

  lemma HeadsAgree(a: seq<Row>, b: seq<Row>)
    requires Ascending(a) && Ascending(b) && a != [] && b != [] && Listed(b, a[0]) && Listed(a, b[0])
    ensures a[0] == b[0]
  {
    var i :| 0 <= i < |a| && a[i] == b[0];
    var j :| 0 <= j < |b| && b[j] == a[0];
  }

  lemma TailListed(a: seq<Row>, b: seq<Row>)
    requires Ascending(a) && Ascending(b) && a != [] && b != [] && a[0] == b[0]
    requires forall i :: 0 <= i < |a| ==> Listed(b, a[i])
    ensures forall i :: 0 <= i < |a[1..]| ==> Listed(b[1..], a[1..][i])
  {
    forall i | 0 <= i < |a[1..]| ensures Listed(b[1..], a[1..][i]) {
      assert Listed(b, a[i + 1]) && Less(KeyOf(a[0]), KeyOf(a[i + 1]));
      var j :| 0 <= j < |b| && b[j] == a[i + 1];
      assert b[1..][j - 1] == a[1..][i];
    }
  }

  // ----- A replica following the feed -----

  /** The replica upserts the rows of a page. */
  function Upsert(replica: Table, rows: seq<Row>): Table {
    if rows == [] then replica else Upsert(replica, rows[..|rows| - 1])[rows[|rows| - 1].id := rows[|rows| - 1]]
  }

  /** What a perfect replica of the user's rows holds, tombstones included. */
  function Mirror(t: Table, user: nat): Table {
    map id | id in t && t[id].user == user :: Marked(t[id])
  }

  /** One change: a row is created, updated or soft-deleted. */
  predicate Changes(t: Table, r: Row) {
    !r.deleted && (r.id in t ==> t[r.id].user == r.user)
  }

  /** The replica agrees with the table as far as the cursor, and holds no row the user does not have. */
  ghost predicate InStep(replica: Table, t: Table, user: nat, cursor: Option<Key>) {
    && (forall id :: id in replica ==> id in t && t[id].user == user)
    && (forall id :: id in t && t[id].user == user && !After(cursor, KeyOf(t[id])) ==>
          id in replica && replica[id] == Marked(t[id]))
  }

  lemma {:induction false} UpsertHolds(replica: Table, rows: seq<Row>, id: nat)
    ensures id in Upsert(replica, rows) <==> id in replica || exists i :: 0 <= i < |rows| && rows[i].id == id
    ensures id in Upsert(replica, rows) ==>
      (id in replica && Upsert(replica, rows)[id] == replica[id] && !exists i :: 0 <= i < |rows| && rows[i].id == id)
      || exists i :: 0 <= i < |rows| && rows[i].id == id && Upsert(replica, rows)[id] == rows[i]
  {
    if rows != [] {
      var n := |rows| - 1;
      UpsertHolds(replica, rows[..n], id);
      assert forall i :: 0 <= i < n ==> rows[..n][i] == rows[i];
      if rows[n].id == id { assert Upsert(replica, rows)[id] == rows[n]; }
    }
  }

  /** A change after the cursor leaves the replica in step: it is still to come. */
  lemma ChangeKeepsInStep(replica: Table, t: Table, user: nat, cursor: Option<Key>, r: Row)
    requires WellFormed(t) && InStep(replica, t, user, cursor) && Changes(t, r) && After(cursor, KeyOf(r))
    ensures WellFormed(t[r.id := r]) && InStep(replica, t[r.id := r], user, cursor)
  {
  }

  /** A page brings the replica in step with its next cursor, or, if it has none, makes it a mirror. */
  lemma PageKeepsInStep(replica: Table, t: Table, user: nat, cursor: Option<Key>, limit: nat, p: Page)
    requires WellFormed(t) && InStep(replica, t, user, cursor) && Answers(t, user, cursor, limit, p)
    ensures p.next.Some? ==> InStep(Upsert(replica, p.rows), t, user, p.next)
    ensures p.next.None? ==> Upsert(replica, p.rows) == Mirror(t, user)
  {
    hide Upsert;
    var after := Upsert(replica, p.rows);
    forall id ensures id in after ==> id in t && t[id].user == user {
      UpsertHolds(replica, p.rows, id);
    }
    forall id | id in t && t[id].user == user && Reaches(p, KeyOf(t[id]))
        ensures id in after && after[id] == Marked(t[id]) {
      UpsertHolds(replica, p.rows, id);
      if Due(t, user, cursor, id) { assert Listed(p.rows, Marked(t[id])); }
    }
  }

  /** One request of a sync: the changes since the previous one, in order, then the page it got. */
  datatype Round = Round(changes: seq<Row>, page: Page)

  function Changed(t: Table, changes: seq<Row>): Table
    decreases |changes|
  {
    if changes == [] then t else Changed(t[changes[0].id := changes[0]], changes[1..])
  }

  /** Every change is one, and gets a position after the cursor. */
  ghost predicate AllAfter(t: Table, changes: seq<Row>, cursor: Option<Key>)
    decreases |changes|
  {
    changes == [] || (Changes(t, changes[0]) && After(cursor, KeyOf(changes[0]))
        && AllAfter(t[changes[0].id := changes[0]], changes[1..], cursor))
  }

  /** A sync that starts at the cursor and follows next_cursor until it is empty. */
  ghost predicate Sync(t: Table, user: nat, limit: nat, cursor: Option<Key>, rounds: seq<Round>)
    decreases |rounds|
  {
    && rounds != []
    && var now := Changed(t, rounds[0].changes);
    && Answers(now, user, cursor, limit, rounds[0].page)
    && (if rounds[0].page.next.None? then |rounds| == 1
        else Sync(now, user, limit, rounds[0].page.next, rounds[1..]))
  }

  ghost predicate AllRoundsAfter(t: Table, cursor: Option<Key>, rounds: seq<Round>)
    decreases |rounds|
  {
    rounds != [] ==>
      && AllAfter(t, rounds[0].changes, cursor)
      && AllRoundsAfter(Changed(t, rounds[0].changes), rounds[0].page.next, rounds[1..])
  }

  function FinalTable(t: Table, rounds: seq<Round>): Table
    decreases |rounds|
  {
    if rounds == [] then t else FinalTable(Changed(t, rounds[0].changes), rounds[1..])
  }

  function FinalReplica(replica: Table, rounds: seq<Round>): Table
    decreases |rounds|
  {
    if rounds == [] then replica else FinalReplica(Upsert(replica, rounds[0].page.rows), rounds[1..])
  }

  lemma {:induction false} ChangesKeepInStep(replica: Table, t: Table, user: nat, cursor: Option<Key>,
                                             changes: seq<Row>)
    requires WellFormed(t) && InStep(replica, t, user, cursor) && AllAfter(t, changes, cursor)
    ensures WellFormed(Changed(t, changes)) && InStep(replica, Changed(t, changes), user, cursor)
    decreases |changes|
  {
    if changes != [] {
      ChangeKeepsInStep(replica, t, user, cursor, changes[0]);
      ChangesKeepInStep(replica, t[changes[0].id := changes[0]], user, cursor, changes[1..]);
    }
  }

  /** A replica in step with its cursor mirrors the table of the last request when the sync ends, provided each
      change between requests lands after the cursor then in use. */
  lemma {:induction false} Converges(replica: Table, t: Table, user: nat, limit: nat, cursor: Option<Key>,
                                     rounds: seq<Round>)
    requires WellFormed(t) && InStep(replica, t, user, cursor)
    requires Sync(t, user, limit, cursor, rounds) && AllRoundsAfter(t, cursor, rounds)
    ensures FinalReplica(replica, rounds) == Mirror(FinalTable(t, rounds), user)
    decreases |rounds|
  {
    var r := rounds[0];
    var now := Changed(t, r.changes);
    ChangesKeepInStep(replica, t, user, cursor, r.changes);
    PageKeepsInStep(replica, now, user, cursor, limit, r.page);
    if r.page.next.Some? {
      Converges(Upsert(replica, r.page.rows), now, user, limit, r.page.next, rounds[1..]);
    } else {
      assert rounds[1..] == [];
    }
  }

  // ----- A clock that only moves forward -----

  /** Each change gets an updated_at strictly above all earlier ones, the latest of which is clock. */
  ghost predicate Ticking(t: Table, changes: seq<Row>, clock: int)
    decreases |changes|
  {
    changes == [] || (Changes(t, changes[0]) && clock < changes[0].updatedAt
                      && Ticking(t[changes[0].id := changes[0]], changes[1..], changes[0].updatedAt))
  }

  function ClockAfter(changes: seq<Row>, clock: int): int {
    if changes == [] then clock else changes[|changes| - 1].updatedAt
  }

  ghost predicate AllTicking(t: Table, clock: int, rounds: seq<Round>)
    decreases |rounds|
  {
    rounds != [] ==>
      && Ticking(t, rounds[0].changes, clock)
      && AllTicking(Changed(t, rounds[0].changes), ClockAfter(rounds[0].changes, clock), rounds[1..])
  }

  /** No row is newer than the clock. */
  ghost predicate Dated(t: Table, clock: int) {
    forall id :: id in t ==> t[id].updatedAt <= clock
  }

  lemma {:induction false} TickingIsAfter(t: Table, changes: seq<Row>, clock: int, cursor: Option<Key>)
    requires Ticking(t, changes, clock) && Dated(t, clock) && (cursor.Some? ==> cursor.value.at <= clock)
    ensures AllAfter(t, changes, cursor) && clock <= ClockAfter(changes, clock)
    ensures Dated(Changed(t, changes), ClockAfter(changes, clock))
    decreases |changes|
  {
    if changes != [] {
      var r := changes[0];
      TickingIsAfter(t[r.id := r], changes[1..], r.updatedAt, cursor);
      assert ClockAfter(changes, clock) == ClockAfter(changes[1..], r.updatedAt);
    }
  }

  lemma {:induction false} TickingRounds(t: Table, user: nat, limit: nat, cursor: Option<Key>, clock: int,
                                         rounds: seq<Round>)
    requires Sync(t, user, limit, cursor, rounds) && AllTicking(t, clock, rounds)
    requires Dated(t, clock) && (cursor.Some? ==> cursor.value.at <= clock)
    ensures AllRoundsAfter(t, cursor, rounds)
    decreases |rounds|
  {
    var r := rounds[0];
    TickingIsAfter(t, r.changes, clock, cursor);
    if r.page.next.Some? {
      TickingRounds(Changed(t, r.changes), user, limit, r.page.next, ClockAfter(r.changes, clock), rounds[1..]);
    } else {
      assert rounds[1..] == [];
    }
  }

  /** Change-feed convergence: a replica in step with its cursor that follows next_cursor until it is empty ends up
      holding exactly the user's rows of the last request's table, tombstones included, whatever was created, updated or
      soft-deleted between the requests, as long as each change gets an updated_at above all earlier ones. */
  lemma ReplicaConverges(replica: Table, t: Table, user: nat, limit: nat, cursor: Option<Key>, clock: int,
                         rounds: seq<Round>)
    requires WellFormed(t) && Dated(t, clock) && InStep(replica, t, user, cursor)
    requires (cursor.Some? ==> cursor.value.at <= clock)
    requires Sync(t, user, limit, cursor, rounds) && AllTicking(t, clock, rounds)
    ensures FinalReplica(replica, rounds) == Mirror(FinalTable(t, rounds), user)
  {
    TickingRounds(t, user, limit, cursor, clock, rounds);
    Converges(replica, t, user, limit, cursor, rounds);
  }

  /** What such a replica then holds: exactly the user's rows, each as it is in the table and marked as deleted exactly
      if it is soft-deleted there. */
  lemma ReplicaHolds(replica: Table, t: Table, user: nat, limit: nat, cursor: Option<Key>, clock: int,
                     rounds: seq<Round>, id: nat)
    requires WellFormed(t) && Dated(t, clock) && InStep(replica, t, user, cursor)
    requires (cursor.Some? ==> cursor.value.at <= clock)
    requires Sync(t, user, limit, cursor, rounds) && AllTicking(t, clock, rounds)
    ensures var got, final := FinalReplica(replica, rounds), FinalTable(t, rounds);
      && (id in got <==> id in final && final[id].user == user)
      && (id in got ==> got[id].id == id && Delivers(final, user, got[id]))
  {
    ReplicaConverges(replica, t, user, limit, cursor, clock, rounds);
    TickingKeepsWellFormed(t, clock, rounds);
  }

  lemma {:induction false} TickingKeepsWellFormed(t: Table, clock: int, rounds: seq<Round>)
    requires WellFormed(t) && AllTicking(t, clock, rounds)
    ensures WellFormed(FinalTable(t, rounds))
    decreases |rounds|
  {
    hide WellFormed;
    if rounds != [] {
      TickingChangesKeepWellFormed(t, rounds[0].changes, clock);
      TickingKeepsWellFormed(Changed(t, rounds[0].changes), ClockAfter(rounds[0].changes, clock), rounds[1..]);
    }
  }

  lemma {:induction false} TickingChangesKeepWellFormed(t: Table, changes: seq<Row>, clock: int)
    requires WellFormed(t) && Ticking(t, changes, clock)
    ensures WellFormed(Changed(t, changes))
    decreases |changes|
  {
    if changes != [] {
      TickingChangesKeepWellFormed(t[changes[0].id := changes[0]], changes[1..], changes[0].updatedAt);
    }
  }

  /** An empty replica is in step with any cursor before all of the user's rows, and a mirror with every cursor: so a
      first sync may start from nothing, and a finished one may resume from any position it has seen. */
  lemma WhereToStart(t: Table, user: nat, cursor: Option<Key>)
    ensures InStep(Mirror(t, user), t, user, cursor)
    ensures InStep(map[], t, user, cursor) <==>
      forall id :: id in t && t[id].user == user ==> After(cursor, KeyOf(t[id]))
  {
  }

  // ----- Without changes -----

  function AllRows(rounds: seq<Round>): seq<Row> {
    if rounds == [] then [] else rounds[0].page.rows + AllRows(rounds[1..])
  }

  /** With no changes the pages together list every due row exactly once, in ascending order. */
  lemma {:induction false} DrainListsEachOnce(t: Table, user: nat, limit: nat, cursor: Option<Key>, rounds: seq<Round>)
    requires Sync(t, user, limit, cursor, rounds) && forall k :: 0 <= k < |rounds| ==> rounds[k].changes == []
    ensures Answers(t, user, cursor, |AllRows(rounds)|, Page(AllRows(rounds), None))
    decreases |rounds|
  {
    hide Answers;
    var p := rounds[0].page;
    assert Changed(t, rounds[0].changes) == t;
    if p.next.None? {
      assert rounds[1..] == [] && AllRows(rounds) == p.rows;
      assert Answers(t, user, cursor, |p.rows|, Page(p.rows, None)) by { LastPage(t, user, cursor, limit, p); }
    } else {
      DrainListsEachOnce(t, user, limit, p.next, rounds[1..]);
      PagesJoin(t, user, limit, cursor, p, AllRows(rounds[1..]));
    }
  }

  lemma LastPage(t: Table, user: nat, cursor: Option<Key>, limit: nat, p: Page)
    requires Answers(t, user, cursor, limit, p) && p.next.None?
    ensures Answers(t, user, cursor, |p.rows|, Page(p.rows, None))
  {
  }

  /** Every page but the last is full, which bounds the number of requests. */
  lemma {:induction false} PagesAreFull(t: Table, user: nat, limit: nat, cursor: Option<Key>, rounds: seq<Round>)
    requires Sync(t, user, limit, cursor, rounds)
    ensures limit * (|rounds| - 1) <= |AllRows(rounds)| <= limit * |rounds|
    decreases |rounds|
  {
    var p, rest := rounds[0].page, rounds[1..];
    if p.next.None? {
      assert rest == [] && AllRows(rounds) == p.rows;
      assert limit * (|rounds| - 1) == 0 && limit * |rounds| == limit;
    } else {
      PagesAreFull(Changed(t, rounds[0].changes), user, limit, p.next, rest);
      OneMore(limit, |rest|);
      OneMore(limit, |rounds|);
    }
  }

  lemma OneMore(limit: nat, n: nat)
    requires n > 0
    ensures limit * n == limit * (n - 1) + limit
  {
  }

  /** So what a replica gets does not depend on the page size. */
  lemma PageSizeDoesNotMatter(t: Table, user: nat, cursor: Option<Key>, limit: nat, rounds: seq<Round>, limit': nat,
                              rounds': seq<Round>)
    requires Sync(t, user, limit, cursor, rounds) && forall k :: 0 <= k < |rounds| ==> rounds[k].changes == []
    requires Sync(t, user, limit', cursor, rounds') && forall k :: 0 <= k < |rounds'| ==> rounds'[k].changes == []
    ensures AllRows(rounds) == AllRows(rounds')
  {
    DrainListsEachOnce(t, user, limit, cursor, rounds);
    DrainListsEachOnce(t, user, limit', cursor, rounds');
    AscendingIsUnique(AllRows(rounds), AllRows(rounds'));
  }

  lemma PagesJoin(t: Table, user: nat, limit: nat, cursor: Option<Key>, p: Page, rest: seq<Row>)
    requires Answers(t, user, cursor, limit, p) && p.next.Some?
    requires Answers(t, user, p.next, |rest|, Page(rest, None))
    ensures Answers(t, user, cursor, |p.rows + rest|, Page(p.rows + rest, None))
  {
    var all := p.rows + rest;
    forall i, j | 0 <= i < j < |all| ensures Less(KeyOf(all[i]), KeyOf(all[j])) {
      if i < |p.rows| <= j {
        assert Due(t, user, p.next, rest[j - |p.rows|].id);
        assert i == limit - 1 || Less(KeyOf(p.rows[i]), KeyOf(p.rows[limit - 1]));
      }
    }
    forall i | 0 <= i < |all| ensures Due(t, user, cursor, all[i].id) && all[i] == Marked(t[all[i].id]) {
      if i >= |p.rows| {
        assert Due(t, user, p.next, rest[i - |p.rows|].id);
        assert Due(t, user, cursor, p.rows[limit - 1].id);
      }
    }
    forall id | Due(t, user, cursor, id) ensures Listed(all, Marked(t[id])) {
      if Reaches(p, KeyOf(t[id])) {
        assert Listed(p.rows, Marked(t[id]));
        var i :| 0 <= i < |p.rows| && p.rows[i] == Marked(t[id]);
        assert all[i] == Marked(t[id]);
      } else {
        assert Due(t, user, p.next, id) && Listed(rest, Marked(t[id]));
        var i :| 0 <= i < |rest| && rest[i] == Marked(t[id]);
        assert all[|p.rows| + i] == Marked(t[id]);
      }
    }
  }

  // ----- A change that lands at or before the cursor -----

  /** A row at or before the cursor is in no later page, so the replica keeps whatever it held of it: if a change
      lands there, the sync ends without it. */
  lemma {:induction false} BehindTheCursorIsMissed(replica: Table, t: Table, user: nat, limit: nat,
                                                   cursor: Option<Key>, rounds: seq<Round>, id: nat)
    requires Sync(t, user, limit, cursor, rounds) && forall k :: 0 <= k < |rounds| ==> rounds[k].changes == []
    requires id in t && !After(cursor, KeyOf(t[id]))
    ensures id in FinalReplica(replica, rounds) <==> id in replica
    ensures id in replica ==> FinalReplica(replica, rounds)[id] == replica[id]
    decreases |rounds|
  {
    var p := rounds[0].page;
    assert Changed(t, rounds[0].changes) == t;
    UpsertHolds(replica, p.rows, id);
    assert forall i :: 0 <= i < |p.rows| ==> p.rows[i].id != id;
    if p.next.Some? {
      assert Due(t, user, cursor, p.rows[limit - 1].id);
      BehindTheCursorIsMissed(Upsert(replica, p.rows), t, user, limit, p.next, rounds[1..], id);
    } else {
      assert rounds[1..] == [];
    }
  }

  /** Between two requests without further changes, a single change reaches the replica if and only if it lands
      after the cursor in use (or the replica held that very row already). */
  lemma ChangeArrivesIff(replica: Table, t: Table, user: nat, limit: nat, cursor: Option<Key>, r: Row,
                         rounds: seq<Round>)
    requires WellFormed(t) && InStep(replica, t, user, cursor) && Changes(t, r) && r.user == user
    requires Sync(t[r.id := r], user, limit, cursor, rounds)
      && forall k :: 0 <= k < |rounds| ==> rounds[k].changes == []
    ensures FinalReplica(replica, rounds) == Mirror(t[r.id := r], user)
      <==> After(cursor, KeyOf(r)) || (r.id in replica && replica[r.id] == Marked(r))
  {
    var now := t[r.id := r];
    UnchangedRounds(now, cursor, rounds);
    if After(cursor, KeyOf(r)) || (r.id in replica && replica[r.id] == Marked(r)) {
      assert InStep(replica, now, user, cursor);
      Converges(replica, now, user, limit, cursor, rounds);
    } else {
      BehindTheCursorIsMissed(replica, now, user, limit, cursor, rounds, r.id);
      assert Mirror(now, user)[r.id] == Marked(r);
    }
  }

  lemma {:induction false} UnchangedRounds(t: Table, cursor: Option<Key>, rounds: seq<Round>)
    requires forall k :: 0 <= k < |rounds| ==> rounds[k].changes == []
    ensures AllRoundsAfter(t, cursor, rounds) && FinalTable(t, rounds) == t
    decreases |rounds|
  {
    if rounds != [] {
      assert Changed(t, rounds[0].changes) == t;
      UnchangedRounds(t, rounds[0].page.next, rounds[1..]);
    }
  }

  // ----- A whole drain, with changes in every round -----

  /** Every change is one, wherever it lands. */
  ghost predicate AllChange(t: Table, changes: seq<Row>)
    decreases |changes|
  {
    changes != [] ==> Changes(t, changes[0]) && AllChange(t[changes[0].id := changes[0]], changes[1..])
  }

  ghost predicate AllRoundsChange(t: Table, rounds: seq<Round>)
    decreases |rounds|
  {
    rounds != [] ==> AllChange(t, rounds[0].changes) && AllRoundsChange(Changed(t, rounds[0].changes), rounds[1..])
  }

  predicate Mentions(changes: seq<Row>, id: nat) {
    exists i :: 0 <= i < |changes| && changes[i].id == id
  }

  predicate SomeRoundMentions(rounds: seq<Round>, id: nat) {
    exists k :: 0 <= k < |rounds| && Mentions(rounds[k].changes, id)
  }

  /** The row is still to come, or the replica holds it as it is. */
  predicate RowInStep(replica: Table, t: Table, cursor: Option<Key>, id: nat)
    requires id in t
  {
    After(cursor, KeyOf(t[id])) || (id in replica && replica[id] == Marked(t[id]))
  }

  /** At the request that follows its last change, or at the first one if it is never changed, the row lies after the
      cursor or the replica holds it already. */
  predicate Arrives(replica: Table, t: Table, cursor: Option<Key>, rounds: seq<Round>, id: nat)
    decreases |rounds|
  {
    && rounds != []
    && var now := Changed(t, rounds[0].changes);
    if SomeRoundMentions(rounds[1..], id)
    then Arrives(Upsert(replica, rounds[0].page.rows), now, rounds[0].page.next, rounds[1..], id)
    else id in now && RowInStep(replica, now, cursor, id)
  }

  lemma {:induction false} ChangesKeepRow(t: Table, changes: seq<Row>, id: nat)
    requires WellFormed(t) && AllChange(t, changes)
    ensures var now := Changed(t, changes);
      && WellFormed(now)
      && (id in t ==> id in now && now[id].user == t[id].user)
      && (!Mentions(changes, id) ==> (id in now <==> id in t) && (id in t ==> now[id] == t[id]))
    decreases |changes|
  {
    if changes != [] {
      var r := changes[0];
      ChangesKeepRow(t[r.id := r], changes[1..], id);
      if Mentions(changes[1..], id) {
        var i :| 0 <= i < |changes[1..]| && changes[1..][i].id == id;
        assert changes[i + 1].id == id;
      }
    }
  }

  /** A page leaves a row that is in step so, and one that is not so too. */
  lemma PageKeepsRow(replica: Table, t: Table, user: nat, cursor: Option<Key>, limit: nat, p: Page, id: nat)
    requires WellFormed(t) && Answers(t, user, cursor, limit, p) && id in t && t[id].user == user
    ensures var after := Upsert(replica, p.rows); RowInStep(replica, t, cursor, id) <==>
      if p.next.Some? then RowInStep(after, t, p.next, id) else id in after && after[id] == Marked(t[id])
  {
    hide Upsert;
    UpsertHolds(replica, p.rows, id);
    if Due(t, user, cursor, id) {
      if Reaches(p, KeyOf(t[id])) { assert Listed(p.rows, Marked(t[id])); }
    } else {
      assert forall i :: 0 <= i < |p.rows| ==> p.rows[i].id != id;
      if p.next.Some? { assert Due(t, user, cursor, p.rows[limit - 1].id); }
    }
  }

  /** A row that no round changes arrives exactly if it is in step at the start. */
  lemma {:induction false} SettledRow(replica: Table, t: Table, user: nat, limit: nat, cursor: Option<Key>,
                                      rounds: seq<Round>, id: nat)
    requires WellFormed(t) && Sync(t, user, limit, cursor, rounds) && AllRoundsChange(t, rounds)
    requires id in t && t[id].user == user && !SomeRoundMentions(rounds, id)
    ensures var final := FinalReplica(replica, rounds);
      && id in FinalTable(t, rounds) && FinalTable(t, rounds)[id] == t[id]
      && (id in final && final[id] == Marked(t[id]) <==> RowInStep(replica, t, cursor, id))
    decreases |rounds|
  {
    hide Answers, WellFormed, Upsert, Changed, AllChange;
    var r, now := rounds[0], Changed(t, rounds[0].changes);
    assert !Mentions(r.changes, id);
    ChangesKeepRow(t, r.changes, id);
    PageKeepsRow(replica, now, user, cursor, limit, r.page, id);
    if r.page.next.Some? {
      assert forall k :: 0 <= k < |rounds[1..]| ==> rounds[1..][k] == rounds[k + 1];
      SettledRow(Upsert(replica, r.page.rows), now, user, limit, r.page.next, rounds[1..], id);
    } else {
      assert rounds[1..] == [];
    }
  }

  lemma {:induction false} RowArrivesIff(replica: Table, t: Table, user: nat, limit: nat, cursor: Option<Key>,
                                         rounds: seq<Round>, id: nat)
    requires WellFormed(t) && Sync(t, user, limit, cursor, rounds) && AllRoundsChange(t, rounds)
    requires id in FinalTable(t, rounds) && FinalTable(t, rounds)[id].user == user
    ensures var final := FinalReplica(replica, rounds);
      id in final && final[id] == Marked(FinalTable(t, rounds)[id]) <==> Arrives(replica, t, cursor, rounds, id)
    decreases |rounds|
  {
    hide Answers, WellFormed, Upsert, Changed, AllChange, Mentions;
    var r, now := rounds[0], Changed(t, rounds[0].changes);
    ChangesKeepRow(t, r.changes, id);
    if SomeRoundMentions(rounds[1..], id) {
      RowArrivesIff(Upsert(replica, r.page.rows), now, user, limit, r.page.next, rounds[1..], id);
    } else {
      UnmentionedRow(now, rounds[1..], id);
      SettledRound(replica, now, user, limit, cursor, r.page, rounds[1..], id);
    }
  }

  lemma {:induction false} UnmentionedRow(t: Table, rounds: seq<Round>, id: nat)
    requires WellFormed(t) && AllRoundsChange(t, rounds) && !SomeRoundMentions(rounds, id)
    ensures id in FinalTable(t, rounds) <==> id in t
    ensures id in t ==> FinalTable(t, rounds)[id] == t[id]
    decreases |rounds|
  {
    hide WellFormed, Changed, AllChange, Mentions;
    if rounds != [] {
      assert !Mentions(rounds[0].changes, id);
      ChangesKeepRow(t, rounds[0].changes, id);
      assert forall k :: 0 <= k < |rounds[1..]| ==> rounds[1..][k] == rounds[k + 1];
      UnmentionedRow(Changed(t, rounds[0].changes), rounds[1..], id);
    }
  }

  lemma SettledRound(replica: Table, now: Table, user: nat, limit: nat, cursor: Option<Key>, p: Page,
                     rest: seq<Round>, id: nat)
    requires WellFormed(now) && Answers(now, user, cursor, limit, p) && id in now && now[id].user == user
    requires if p.next.None? then rest == []
             else Sync(now, user, limit, p.next, rest) && AllRoundsChange(now, rest) && !SomeRoundMentions(rest, id)
    ensures var final := FinalReplica(Upsert(replica, p.rows), rest);
      id in final && final[id] == Marked(now[id]) <==> RowInStep(replica, now, cursor, id)
  {
    hide Answers, WellFormed, Upsert, Changed, AllChange, Mentions;
    PageKeepsRow(replica, now, user, cursor, limit, p, id);
    if p.next.Some? { SettledRow(Upsert(replica, p.rows), now, user, limit, p.next, rest, id); }
  }

  /** The replica only gains rows, all of them the user's. */
  lemma {:induction false} ReplicaGrows(replica: Table, t: Table, user: nat, limit: nat, cursor: Option<Key>,
                                        rounds: seq<Round>, id: nat)
    requires WellFormed(t) && Sync(t, user, limit, cursor, rounds) && AllRoundsChange(t, rounds)
    ensures id in t ==> id in FinalTable(t, rounds) && FinalTable(t, rounds)[id].user == t[id].user
    ensures id in replica ==> id in FinalReplica(replica, rounds)
    ensures id in FinalReplica(replica, rounds) && id !in replica ==>
      id in FinalTable(t, rounds) && FinalTable(t, rounds)[id].user == user
    decreases |rounds|
  {
    hide WellFormed, Upsert, Changed, AllChange;
    var r, now := rounds[0], Changed(t, rounds[0].changes);
    ChangesKeepRow(t, r.changes, id);
    UpsertHolds(replica, r.page.rows, id);
    if i :| 0 <= i < |r.page.rows| && r.page.rows[i].id == id { assert Due(now, user, cursor, r.page.rows[i].id); }
    if r.page.next.Some? {
      ReplicaGrows(Upsert(replica, r.page.rows), now, user, limit, r.page.next, rounds[1..], id);
    } else {
      assert rounds[1..] == [];
      assert FinalTable(t, rounds) == now && FinalReplica(replica, rounds) == Upsert(replica, r.page.rows);
    }
  }

  /** A drain makes any replica, from any cursor and whatever changes between the requests, a mirror of the table of
      the last request exactly if it held no row that is not the user's and every row of the user lay after the cursor
      at the request that followed its last change, or was in the replica as it then was. */
  lemma DrainConvergesIff(replica: Table, t: Table, user: nat, limit: nat, cursor: Option<Key>, rounds: seq<Round>)
    requires WellFormed(t) && Sync(t, user, limit, cursor, rounds) && AllRoundsChange(t, rounds)
    ensures var final := FinalTable(t, rounds); FinalReplica(replica, rounds) == Mirror(final, user) <==>
      && (forall id :: id in replica ==> id in final && final[id].user == user)
      && (forall id :: id in final && final[id].user == user ==> Arrives(replica, t, cursor, rounds, id))
  {
    hide Sync, Arrives, FinalReplica, FinalTable, AllRoundsChange;
    var got, final := FinalReplica(replica, rounds), FinalTable(t, rounds);
    forall id | id in final && final[id].user == user
      ensures (id in got && got[id] == Marked(final[id])) <==> Arrives(replica, t, cursor, rounds, id)
    {
      RowArrivesIff(replica, t, user, limit, cursor, rounds, id);
    }
    forall id ensures id in replica ==> id in got
      ensures id in got && id !in replica ==> id in final && final[id].user == user
    {
      ReplicaGrows(replica, t, user, limit, cursor, rounds, id);
    }
    MirrorIff(got, final, user);
  }

  /** A row stamped before the cursor but committed after it was handed out never arrives. */
  lemma LateCommitIsMissed(user: nat)
    ensures var seen, late := Row(2, user, 5, None, "", false), Row(1, user, 4, None, "", false);
      var t, cursor, rounds := map[2 := seen], Some(Key(5, 2)), [Round([late], Page([], None))];
      && InStep(t, t, user, cursor) && Sync(t, user, 10, cursor, rounds) && AllRoundsChange(t, rounds)
      && FinalReplica(t, rounds) != Mirror(FinalTable(t, rounds), user)
  {
    var seen, late := Row(2, user, 5, None, "", false), Row(1, user, 4, None, "", false);
    var t, cursor, rounds := map[2 := seen], Some(Key(5, 2)), [Round([late], Page([], None))];
    var now := t[1 := late];
    assert [late][1..] == [] && Changed(t, [late]) == Changed(now, [late][1..]) == now && rounds[1..] == [];
    assert FinalTable(t, rounds) == FinalTable(now, rounds[1..]) == now;
    assert FinalReplica(t, rounds) == FinalReplica(Upsert(t, []), rounds[1..]) == t;
    assert 1 in Mirror(now, user) && 1 !in t;
  }

  lemma MirrorIff(got: Table, t: Table, user: nat)
    ensures got == Mirror(t, user) <==>
      && (forall id :: id in got ==> id in t && t[id].user == user)
      && (forall id :: id in t && t[id].user == user ==> id in got && got[id] == Marked(t[id]))
  {
  }
}
