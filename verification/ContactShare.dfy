/** The contact-share confirmation protocol.

    Any number of goroutines run Accept, Confirm and Decline.  Confirm serialises
    itself per share id through a map of reference-counted mutexes; Accept and
    Decline take no lock, nor does the ordinary import endpoint, which accepts
    the sessions of a share too.  Every atomic action of the handlers is one
    event, so a run of the server is a sequence of events. */
module ContactShare {
  import opened Prelude

  type ShareId = string
  type UserId = nat

  datatype Status = Pending | Accepted | Declined

  datatype Share = Share(toUser: UserId, status: Status)

  /** Who has imported a session's payload: nobody yet, a confirm of its share, or the ordinary import endpoint. */
  datatype Use = Unused | ByShare | Directly

  /** An import session minted by Accept: bound to one share and one user.  The manager keeps it until it expires, and
      after its import a record of the result, which it replays. */
  datatype Session = Session(share: ShareId, user: UserId, use: Use, kept: bool) {
    predicate Live() { use.Unused? && kept }
  }

  datatype Call =
    | Accept(share: ShareId, user: UserId)
    | Confirm(share: ShareId, user: UserId, session: nat)
    | Decline(share: ShareId, user: UserId)

  /** The next atomic action of a goroutine; l is the lock object it points to. */
  datatype Pc =
    | AcceptRead
    | AcceptMint
    | DeclineRead
    | DeclineSave
    | MapLock                  // shareConfirmLocks.Lock()
    | MapFind                  // l := m[id], or a fresh lock stored under id
    | MapCount(l: nat)         // l.refs++
    | MapUnlock(l: nat)        // shareConfirmLocks.Unlock()
    | MuLock(l: nat)           // l.mu.Lock()
    | ReadStatus(l: nat)
    | CheckSession(l: nat)
    | Import(l: nat)           // ConfirmVCF, one transaction
    | MarkAccepted(l: nat)     // UPDATE ... WHERE status = 'pending'
    | MuUnlock(l: nat)         // l.mu.Unlock()
    | ExitMapLock(l: nat)
    | ExitDrop(l: nat)         // l.refs--, delete the entry at zero
    | ExitMapUnlock
    | Done

  datatype Proc = Proc(call: Call, pc: Pc)

  /** A shareConfirmLock object; key is the map key it was created for. */
  datatype Lock = Lock(key: ShareId, holder: Option<nat>, refs: int)

  datatype Receipt = Receipt(session: nat, user: UserId)

  /** What has happened to one share so far. */
  datatype Tally = Tally(receipts: seq<Receipt>, replays: nat, direct: nat, failedMarks: nat, declines: nat) {
    /** Confirms of the share that got as far as its UPDATE: they imported the payload, or replayed the result of a
        direct import. */
    function Confirms(): nat { |receipts| + replays }

    /** How often the payload has been imported. */
    function Imports(): nat { |receipts| + direct }
  }

  const NOTHING := Tally([], 0, 0, 0, 0)

  datatype State = State(
    shares: map<ShareId, Share>,
    sessions: seq<Session>,
    m: map<ShareId, nat>,
    mapHolder: Option<nat>,
    locks: seq<Lock>,
    procs: seq<Proc>,
    tallies: map<ShareId, Tally>)
  {
    function TallyOf(id: ShareId): Tally {
      if id in tallies then tallies[id] else NOTHING
    }

    function Goto(g: nat, pc: Pc): State
      requires g < |procs|
    {
      this.(procs := procs[g := procs[g].(pc := pc)])
    }

    function SetLock(l: nat, lock: Lock): State
      requires l < |locks|
    {
      this.(locks := locks[l := lock])
    }

    function SetTally(id: ShareId, t: Tally): State {
      this.(tallies := tallies[id := t])
    }

    /** getPendingShareForRecipient: the row exists, is addressed to the user and is
        still pending.  A database error reads like a missing row. */
    predicate ReadsPending(c: Call, ok: bool) {
      ok && c.share in shares && shares[c.share].toUser == c.user && shares[c.share].status == Pending
    }
  }

  datatype Event =
    | Create(id: ShareId, toUser: UserId)
    | Start(call: Call)
    | Step(g: nat, ok: bool)   // ok: the database or import action of this step succeeds
    | Expire(session: nat)
    | ConfirmDirectly(session: nat)   // the ordinary import endpoint, which looks at no share

  function Init(): State {
    State(map[], [], map[], None, [], [], map[])
  }

  function EntryPc(c: Call): Pc {
    match c
    case Accept(_, _) => AcceptRead
    case Confirm(_, _, _) => MapLock
    case Decline(_, _) => DeclineRead
  }

  /** The lock object a goroutine points to, from finding it to dropping it. */
  function LockOf(pc: Pc): Option<nat> {
    if pc.MapCount? then Some(pc.l) else RefOf(pc)
  }

  /** The lock object a goroutine holds a reference on: between refs++ and refs--. */
  function RefOf(pc: Pc): Option<nat> {
    if pc.MapUnlock? || pc.MuLock? || pc.ExitMapLock? || pc.ExitDrop? then Some(pc.l) else MuOf(pc)
  }

  /** The lock object whose mutex a goroutine holds: past l.mu.Lock(), before l.mu.Unlock(). */
  function MuOf(pc: Pc): Option<nat> {
    if pc.ReadStatus? || pc.CheckSession? || pc.Import? || pc.MarkAccepted? || pc.MuUnlock? then Some(pc.l) else None
  }

  predicate HoldsMap(pc: Pc) {
    pc.MapFind? || pc.MapCount? || pc.MapUnlock? || pc.ExitDrop? || pc.ExitMapUnlock?
  }

  /** Lock pointers stay inside the heap of lock objects, and only Confirm uses them. */
  ghost predicate InRange(s: State) {
    forall g: nat :: g < |s.procs| ==>
      PcFits(s.procs[g]) && (LockOf(s.procs[g].pc).Some? ==> LockOf(s.procs[g].pc).value < |s.locks|)
  }

  predicate PcFits(p: Proc) {
    match p.call
    case Accept(_, _) => p.pc.AcceptRead? || p.pc.AcceptMint? || p.pc.Done?
    case Decline(_, _) => p.pc.DeclineRead? || p.pc.DeclineSave? || p.pc.Done?
    case Confirm(_, _, _) => !(p.pc.AcceptRead? || p.pc.AcceptMint? || p.pc.DeclineRead? || p.pc.DeclineSave?)
  }

  /** What blocks: a mutex that somebody holds. */
  ghost predicate Enabled(s: State, e: Event)
    requires InRange(s)
  {
    match e
    case Create(id, _) => id !in s.shares
    case Start(_) => true
    case Expire(_) => true
    case ConfirmDirectly(_) => true
    case Step(g, _) =>
      && g < |s.procs|
      && var pc := s.procs[g].pc;
      && !pc.Done?
      && (pc.MapLock? || pc.ExitMapLock? ==> s.mapHolder == None)
      && (pc.MuLock? ==> assert LockOf(pc) == Some(pc.l); s.locks[pc.l].holder == None)
  }

  ghost function Apply(s: State, e: Event): State
    requires InRange(s) && Enabled(s, e)
  {
    match e
    case Create(id, toUser) => s.(shares := s.shares[id := Share(toUser, Pending)])
    case Start(c) => s.(procs := s.procs + [Proc(c, EntryPc(c))])
    case Expire(k) =>
      if k < |s.sessions| then s.(sessions := s.sessions[k := s.sessions[k].(kept := false)]) else s
    case ConfirmDirectly(k) =>
      if k < |s.sessions| && s.sessions[k].Live() then ImportedDirectly(s, k) else s
    case Step(g, ok) =>
      var pc := s.procs[g].pc;
      if pc.AcceptRead? || pc.AcceptMint? || pc.DeclineRead? || pc.DeclineSave? then Unlocked(s, g, ok)
      else if pc.MapLock? || pc.MapFind? || pc.MapCount? || pc.MapUnlock? || pc.MuLock? then Enter(s, g)
      else if pc.MuUnlock? || pc.ExitMapLock? || pc.ExitDrop? || pc.ExitMapUnlock? then Leave(s, g)
      else Critical(s, g, ok)
  }

  /** The import of a session's payload without its share: the row and the share's lock play no part. */
  function ImportedDirectly(s: State, k: nat): State
    requires k < |s.sessions|
  {
    var id := s.sessions[k].share;
    var t := s.TallyOf(id);
    s.(sessions := s.sessions[k := s.sessions[k].(use := Directly)]).SetTally(id, t.(direct := t.direct + 1))
  }

  /** AcceptContactShare and DeclineContactShare.  The save writes the copy read earlier. */
  function Unlocked(s: State, g: nat, ok: bool): State
    requires g < |s.procs|
    requires var pc := s.procs[g].pc; pc.AcceptRead? || pc.AcceptMint? || pc.DeclineRead? || pc.DeclineSave?
  {
    var c := s.procs[g].call;
    var id := c.share;
    match s.procs[g].pc
    case AcceptRead => s.Goto(g, if s.ReadsPending(c, ok) then AcceptMint else Done)
    case AcceptMint =>
      if ok then s.(sessions := s.sessions + [Session(id, c.user, Unused, true)]).Goto(g, Done) else s.Goto(g, Done)
    case DeclineRead => s.Goto(g, if s.ReadsPending(c, ok) then DeclineSave else Done)
    case DeclineSave =>
      if !ok then s.Goto(g, Done) else
      var t := s.TallyOf(id);
      s.(shares := s.shares[id := Share(c.user, Declined)])
       .SetTally(id, t.(declines := t.declines + 1))
       .Goto(g, Done)
  }

  /** lockShareConfirm up to the point where the mutex is held. */
  ghost function Enter(s: State, g: nat): State
    requires InRange(s) && g < |s.procs|
    requires var pc := s.procs[g].pc; pc.MapLock? || pc.MapFind? || pc.MapCount? || pc.MapUnlock? || pc.MuLock?
  {
    var id := s.procs[g].call.share;
    match s.procs[g].pc
    case MapLock => s.(mapHolder := Some(g)).Goto(g, MapFind)
    case MapFind =>
      if id in s.m then s.Goto(g, MapCount(s.m[id]))
      else s.(locks := s.locks + [Lock(id, None, 0)], m := s.m[id := |s.locks|]).Goto(g, MapCount(|s.locks|))
    case MapCount(l) =>
      assert LockOf(s.procs[g].pc) == Some(l);
      s.SetLock(l, s.locks[l].(refs := s.locks[l].refs + 1)).Goto(g, MapUnlock(l))
    case MapUnlock(l) => s.(mapHolder := None).Goto(g, MuLock(l))
    case MuLock(l) =>
      assert LockOf(s.procs[g].pc) == Some(l);
      s.SetLock(l, s.locks[l].(holder := Some(g))).Goto(g, ReadStatus(l))
  }

  /** ConfirmContactShare under the mutex. */
  function Critical(s: State, g: nat, ok: bool): State
    requires g < |s.procs| && s.procs[g].call.Confirm?
    requires var pc := s.procs[g].pc; pc.ReadStatus? || pc.CheckSession? || pc.Import? || pc.MarkAccepted?
  {
    var c := s.procs[g].call;
    var id := c.share;
    var t := s.TallyOf(id);
    match s.procs[g].pc
    case ReadStatus(l) => s.Goto(g, if s.ReadsPending(c, ok) then CheckSession(l) else MuUnlock(l))
    case CheckSession(l) =>
      s.Goto(g, if ok && c.session < |s.sessions| && s.sessions[c.session] == Session(id, c.user, Unused, true)
                then Import(l) else MuUnlock(l))
    case Import(l) =>
      if !ok || c.session >= |s.sessions| || !s.sessions[c.session].kept then s.Goto(g, MuUnlock(l))
      else if !s.sessions[c.session].use.Unused? then
        s.SetTally(id, t.(replays := t.replays + 1)).Goto(g, MarkAccepted(l))
      else
        s.(sessions := s.sessions[c.session := s.sessions[c.session].(use := ByShare)])
         .SetTally(id, t.(receipts := t.receipts + [Receipt(c.session, c.user)]))
         .Goto(g, MarkAccepted(l))
    case MarkAccepted(l) =>
      if !ok then s.SetTally(id, t.(failedMarks := t.failedMarks + 1)).Goto(g, MuUnlock(l))
      else if id in s.shares && s.shares[id].status == Pending then
        s.(shares := s.shares[id := s.shares[id].(status := Accepted)]).Goto(g, MuUnlock(l))
      else s.Goto(g, MuUnlock(l))
  }

  /** The unlock closure returned by lockShareConfirm. */
  ghost function Leave(s: State, g: nat): State
    requires InRange(s) && g < |s.procs|
    requires var pc := s.procs[g].pc; pc.MuUnlock? || pc.ExitMapLock? || pc.ExitDrop? || pc.ExitMapUnlock?
  {
    var id := s.procs[g].call.share;
    match s.procs[g].pc
    case MuUnlock(l) =>
      assert LockOf(s.procs[g].pc) == Some(l);
      s.SetLock(l, s.locks[l].(holder := None)).Goto(g, ExitMapLock(l))
    case ExitMapLock(l) => s.(mapHolder := Some(g)).Goto(g, ExitDrop(l))
    case ExitDrop(l) =>
      assert LockOf(s.procs[g].pc) == Some(l);
      var s1 := s.SetLock(l, s.locks[l].(refs := s.locks[l].refs - 1)).Goto(g, ExitMapUnlock);
      if s1.locks[l].refs == 0 then s1.(m := s1.m - {id}) else s1
    case ExitMapUnlock => s.(mapHolder := None).Goto(g, Done)
  }

  // ----- Counting references -----

  /** Goroutines between refs++ and refs-- on lock l. */
  function RefCount(procs: seq<Proc>, l: nat): nat {
    if procs == [] then 0
    else RefCount(procs[..|procs| - 1], l) + (if RefOf(procs[|procs| - 1].pc) == Some(l) then 1 else 0)
  }

  lemma {:induction false} RefCountUpdate(procs: seq<Proc>, g: nat, p: Proc, l: nat)
    requires g < |procs|
    ensures RefCount(procs[g := p], l)
         == RefCount(procs, l) - (if RefOf(procs[g].pc) == Some(l) then 1 else 0)
             + (if RefOf(p.pc) == Some(l) then 1 else 0)
  {
    var n := |procs| - 1;
    if g == n {
      assert procs[g := p][..n] == procs[..n];
    } else {
      assert procs[g := p][..n] == procs[..n][g := p];
      RefCountUpdate(procs[..n], g, p, l);
    }
  }

  lemma {:induction false} RefCountPositive(procs: seq<Proc>, l: nat)
    ensures RefCount(procs, l) > 0 <==> exists g :: 0 <= g < |procs| && RefOf(procs[g].pc) == Some(l)
  {
    if procs != [] {
      var n := |procs| - 1;
      RefCountPositive(procs[..n], l);
      if g :| 0 <= g < n && RefOf(procs[g].pc) == Some(l) {
        assert procs[..n][g] == procs[g];
      }
    }
  }

  lemma RefCountAppend(procs: seq<Proc>, p: Proc, l: nat)
    ensures RefCount(procs + [p], l) == RefCount(procs, l) + (if RefOf(p.pc) == Some(l) then 1 else 0)
  {
    assert (procs + [p])[..|procs|] == procs;
  }

  // ----- The invariant of the per-share lock -----

  /** The map mutex is held by exactly the goroutine inside a map section. */
  ghost predicate MapHeld(s: State) {
    && (forall g: nat :: g < |s.procs| && HoldsMap(s.procs[g].pc) ==> s.mapHolder == Some(g))
    && (s.mapHolder.Some? ==> s.mapHolder.value < |s.procs| && HoldsMap(s.procs[s.mapHolder.value].pc))
  }

  /** A share mutex is held by exactly the goroutine inside its critical section. */
  ghost predicate MuHeld(s: State)
    requires InRange(s)
  {
    && (forall g: nat :: g < |s.procs| && MuOf(s.procs[g].pc).Some? ==>
          s.locks[MuOf(s.procs[g].pc).value].holder == Some(g))
    && (forall l: nat :: l < |s.locks| && s.locks[l].holder.Some? ==>
          s.locks[l].holder.value < |s.procs| && MuOf(s.procs[s.locks[l].holder.value].pc) == Some(l))
  }

  /** refs counts exactly the goroutines between refs++ and refs--. */
  ghost predicate RefsCounted(s: State) {
    forall l: nat :: l < |s.locks| ==> s.locks[l].refs == RefCount(s.procs, l)
  }

  /** Every goroutine points at the one lock the map holds for its share. */
  ghost predicate Attached(s: State) {
    forall g: nat :: g < |s.procs| && LockOf(s.procs[g].pc).Some? ==>
      s.procs[g].call.share in s.m && s.m[s.procs[g].call.share] == LockOf(s.procs[g].pc).value
  }

  /** The map holds an entry only while somebody refers to it. */
  ghost predicate EntriesUsed(s: State) {
    forall id :: id in s.m ==> EntryUsed(s, id)
  }

  ghost predicate EntryUsed(s: State, id: ShareId)
    requires id in s.m
  {
    var l := s.m[id];
    && l < |s.locks|
    && s.locks[l].key == id
    && (s.locks[l].refs > 0
          || (s.mapHolder.Some? && s.mapHolder.value < |s.procs| && s.procs[s.mapHolder.value].pc == MapCount(l)))
  }

  ghost predicate LockInv(s: State) {
    InRange(s) && MapHeld(s) && MuHeld(s) && RefsCounted(s) && Attached(s) && EntriesUsed(s)
  }

  // ----- Every step keeps the lock invariant -----

  /** Goroutine g alone moved from pc p to pc q, inside the program of its call. */
  ghost predicate Moves(s: State, t: State, g: nat, p: Pc, q: Pc) {
    && g < |s.procs| == |t.procs|
    && s.procs[g].pc == p
    && t.procs[g] == s.procs[g].(pc := q)
    && PcFits(t.procs[g])
    && (forall h: nat :: h < |s.procs| && h != g ==> t.procs[h] == s.procs[h])
  }

  function Bit(b: bool): nat { if b then 1 else 0 }

  /** The map mutex changes hands as the move from p to q says. */
  predicate MapFollows(s: State, t: State, g: nat, p: Pc, q: Pc) {
    if HoldsMap(p) == HoldsMap(q) then t.mapHolder == s.mapHolder
    else if HoldsMap(p) then t.mapHolder == None
    else s.mapHolder == None && t.mapHolder == Some(g)
  }

  /** So do the counter and the mutex of lock object l. */
  predicate LockFollows(s: State, t: State, g: nat, p: Pc, q: Pc, l: nat)
    requires l < |s.locks| <= |t.locks|
  {
    && t.locks[l].key == s.locks[l].key
    && t.locks[l].refs == s.locks[l].refs - Bit(RefOf(p) == Some(l)) + Bit(RefOf(q) == Some(l))
    && (if (MuOf(p) == Some(l)) == (MuOf(q) == Some(l)) then t.locks[l].holder == s.locks[l].holder
        else if MuOf(p) == Some(l) then t.locks[l].holder == None
        else s.locks[l].holder == None && t.locks[l].holder == Some(g))
  }

  ghost predicate LockStep(s: State, t: State, g: nat, p: Pc, q: Pc) {
    && Moves(s, t, g, p, q)
    && MapFollows(s, t, g, p, q)
    && |s.locks| <= |t.locks|
    && (forall l: nat :: l < |s.locks| ==> LockFollows(s, t, g, p, q, l))
    && (forall l: nat :: |s.locks| <= l < |t.locks| ==>
          t.locks[l].refs == 0 && t.locks[l].holder == None && RefOf(q) != Some(l))
    && (LockOf(q).Some? ==> LockOf(q).value < |t.locks|)
  }

  lemma LockStepKeepsMap(s: State, t: State, g: nat, p: Pc, q: Pc)
    requires InRange(s) && MapHeld(s) && LockStep(s, t, g, p, q)
    ensures InRange(t) && MapHeld(t)
  {
  }

  lemma LockStepKeepsHolders(s: State, t: State, g: nat, p: Pc, q: Pc, l: nat)
    requires InRange(s) && MuHeld(s) && LockStep(s, t, g, p, q) && l < |t.locks| && t.locks[l].holder.Some?
    ensures t.locks[l].holder.value < |t.procs| && MuOf(t.procs[t.locks[l].holder.value].pc) == Some(l)
  {
    hide PcFits, RefOf, MapFollows;
    assert l < |s.locks| && LockFollows(s, t, g, p, q, l);
  }

  lemma LockStepKeepsOwners(s: State, t: State, g: nat, p: Pc, q: Pc, h: nat)
    requires InRange(s) && MuHeld(s) && LockStep(s, t, g, p, q) && InRange(t)
    requires h < |t.procs| && MuOf(t.procs[h].pc).Some?
    ensures t.locks[MuOf(t.procs[h].pc).value].holder == Some(h)
  {
    hide PcFits, MapFollows;
    var l := MuOf(t.procs[h].pc).value;
    assert l < |s.locks| && LockFollows(s, t, g, p, q, l);
  }

  lemma LockStepKeepsMu(s: State, t: State, g: nat, p: Pc, q: Pc)
    requires InRange(s) && MuHeld(s) && LockStep(s, t, g, p, q) && InRange(t)
    ensures MuHeld(t)
  {
    hide PcFits, LockStep;
    forall l: nat | l < |t.locks| && t.locks[l].holder.Some?
      ensures t.locks[l].holder.value < |t.procs| && MuOf(t.procs[t.locks[l].holder.value].pc) == Some(l)
    {
      LockStepKeepsHolders(s, t, g, p, q, l);
    }
    forall h: nat | h < |t.procs| && MuOf(t.procs[h].pc).Some?
      ensures t.locks[MuOf(t.procs[h].pc).value].holder == Some(h)
    {
      LockStepKeepsOwners(s, t, g, p, q, h);
    }
  }

  lemma LockStepKeepsRefs(s: State, t: State, g: nat, p: Pc, q: Pc)
    requires RefsCounted(s) && InRange(s) && LockStep(s, t, g, p, q)
    ensures RefsCounted(t)
  {
    assert t.procs == s.procs[g := t.procs[g]];
    forall l: nat | l < |t.locks| ensures t.locks[l].refs == RefCount(t.procs, l) {
      RefCountUpdate(s.procs, g, t.procs[g], l);
      if l < |s.locks| {
        assert LockFollows(s, t, g, p, q, l);
      } else {
        RefCountPositive(s.procs, l);
      }
    }
  }

  /** A step that leaves the map alone and lets go of no reference keeps the entries in use. */
  lemma LockStepKeepsEntry(s: State, t: State, g: nat, p: Pc, q: Pc, id: ShareId)
    requires InRange(s) && MapHeld(s) && RefsCounted(s) && EntriesUsed(s) && LockStep(s, t, g, p, q) && t.m == s.m
    requires (LockOf(p).Some? ==> RefOf(q) == LockOf(p)) && id in t.m
    ensures EntryUsed(t, id)
  {
    hide PcFits;
    assert EntryUsed(s, id) && LockFollows(s, t, g, p, q, s.m[id]);
  }

  lemma LockStepKeepsAttached(s: State, t: State, g: nat, p: Pc, q: Pc)
    requires Attached(s) && LockStep(s, t, g, p, q) && t.m == s.m
    requires LockOf(q).Some? && LockOf(q) != LockOf(p) ==>
      s.procs[g].call.share in s.m && s.m[s.procs[g].call.share] == LockOf(q).value
    ensures Attached(t)
  {
    hide PcFits, LockFollows, MapFollows, RefOf;
    assert forall h: nat :: h < |s.procs| && h != g ==> t.procs[h] == s.procs[h];
  }

  /** Every step but the first lookup and the last drop leaves the map alone. */
  lemma LockStepKeeps(s: State, t: State, g: nat, p: Pc, q: Pc)
    requires LockInv(s) && LockStep(s, t, g, p, q) && t.m == s.m
    requires LockOf(q).Some? && LockOf(q) != LockOf(p) ==>
      s.procs[g].call.share in s.m && s.m[s.procs[g].call.share] == LockOf(q).value
    requires LockOf(p).Some? ==> RefOf(q) == LockOf(p)
    ensures LockInv(t)
  {
    hide InRange, MapHeld, MuHeld, RefsCounted, Attached, EntryUsed, LockStep;
    LockStepKeepsMap(s, t, g, p, q);
    LockStepKeepsMu(s, t, g, p, q);
    LockStepKeepsRefs(s, t, g, p, q);
    LockStepKeepsAttached(s, t, g, p, q);
    forall id | id in t.m ensures EntryUsed(t, id) { LockStepKeepsEntry(s, t, g, p, q, id); }
  }

  lemma MapSectionIsLockStep(s: State, g: nat)
    requires InRange(s) && g < |s.procs| && Enabled(s, Step(g, true))
    requires var pc := s.procs[g].pc; pc.MapLock? || pc.MapFind? || pc.MapUnlock?
    requires s.procs[g].call.share in s.m ==> s.m[s.procs[g].call.share] < |s.locks|
    ensures LockStep(s, Enter(s, g), g, s.procs[g].pc, Enter(s, g).procs[g].pc)
  {
  }

  lemma LockObjectIsLockStep(s: State, g: nat)
    requires InRange(s) && g < |s.procs| && Enabled(s, Step(g, true))
    requires var pc := s.procs[g].pc; pc.MapCount? || pc.MuLock?
    ensures LockStep(s, Enter(s, g), g, s.procs[g].pc, Enter(s, g).procs[g].pc)
  {
  }

  lemma EnterIsLockStep(s: State, g: nat)
    requires InRange(s) && g < |s.procs| && Enabled(s, Step(g, true))
    requires var pc := s.procs[g].pc; pc.MapLock? || pc.MapFind? || pc.MapCount? || pc.MapUnlock? || pc.MuLock?
    requires s.procs[g].call.share in s.m ==> s.m[s.procs[g].call.share] < |s.locks|
    ensures LockStep(s, Enter(s, g), g, s.procs[g].pc, Enter(s, g).procs[g].pc)
  {
    hide LockStep, Enter;
    if s.procs[g].pc.MapCount? || s.procs[g].pc.MuLock?
        { LockObjectIsLockStep(s, g); } else { MapSectionIsLockStep(s, g); }
  }

  lemma LeaveIsLockStep(s: State, g: nat)
    requires InRange(s) && g < |s.procs| && Enabled(s, Step(g, true))
    requires var pc := s.procs[g].pc; pc.MuUnlock? || pc.ExitMapLock? || pc.ExitDrop? || pc.ExitMapUnlock?
    ensures LockStep(s, Leave(s, g), g, s.procs[g].pc, Leave(s, g).procs[g].pc)
  {
  }

  lemma EnterKeepsLockInv(s: State, g: nat)
    requires LockInv(s) && g < |s.procs| && Enabled(s, Step(g, true))
    requires var pc := s.procs[g].pc; pc.MapLock? || pc.MapFind? || pc.MapCount? || pc.MapUnlock? || pc.MuLock?
    ensures LockInv(Enter(s, g))
  {
    hide MapHeld, MuHeld, RefsCounted;
    if s.procs[g].call.share in s.m { assert EntryUsed(s, s.procs[g].call.share); }
    EnterIsLockStep(s, g);
    var t := Enter(s, g);
    var p, q := s.procs[g].pc, t.procs[g].pc;
    if p.MapFind? && s.procs[g].call.share !in s.m {
      FreshEntryKeeps(s, t, g);
    } else {
      LockStepKeeps(s, t, g, p, q);
    }
  }

  lemma FreshEntryKeeps(s: State, t: State, g: nat)
    requires LockInv(s) && LockStep(s, t, g, MapFind, MapCount(|s.locks|))
    requires s.procs[g].call.share !in s.m && t.m == s.m[s.procs[g].call.share := |s.locks|]
    requires |t.locks| == |s.locks| + 1 && t.locks[|s.locks|].key == s.procs[g].call.share
    ensures LockInv(t)
  {
    hide MapHeld, MuHeld, RefsCounted;
    LockStepKeepsMap(s, t, g, MapFind, MapCount(|s.locks|));
    LockStepKeepsMu(s, t, g, MapFind, MapCount(|s.locks|));
    LockStepKeepsRefs(s, t, g, MapFind, MapCount(|s.locks|));
    forall id | id in t.m ensures EntryUsed(t, id) {
      if id in s.m { assert EntryUsed(s, id) && LockFollows(s, t, g, MapFind, MapCount(|s.locks|), s.m[id]); }
    }
  }

  lemma LeaveKeepsLockInv(s: State, g: nat)
    requires LockInv(s) && g < |s.procs| && Enabled(s, Step(g, true))
    requires var pc := s.procs[g].pc; pc.MuUnlock? || pc.ExitMapLock? || pc.ExitDrop? || pc.ExitMapUnlock?
    ensures LockInv(Leave(s, g))
  {
    hide MapHeld, MuHeld, RefsCounted, EntriesUsed;
    LeaveIsLockStep(s, g);
    var t := Leave(s, g);
    if s.procs[g].pc.ExitDrop? {
      DropKeeps(s, t, g, s.procs[g].pc.l);
    } else {
      LockStepKeeps(s, t, g, s.procs[g].pc, t.procs[g].pc);
    }
  }

  /** Dropping the last reference removes the entry; by then nobody else points at the lock. */
  lemma DropKeepsAttached(s: State, t: State, g: nat, l: nat)
    requires InRange(s) && MapHeld(s) && Attached(s) && LockStep(s, t, g, ExitDrop(l), ExitMapUnlock) && RefsCounted(t)
    requires l < |t.locks| && t.m == if t.locks[l].refs == 0 then s.m - {s.procs[g].call.share} else s.m
    ensures Attached(t)
  {
    RefCountPositive(t.procs, l);
    forall h: nat | h < |t.procs| && LockOf(t.procs[h].pc).Some?
      ensures t.procs[h].call.share in t.m && t.m[t.procs[h].call.share] == LockOf(t.procs[h].pc).value
    {
      assert h != g && t.procs[h] == s.procs[h];
    }
  }

  lemma DropKeeps(s: State, t: State, g: nat, l: nat)
    requires LockInv(s) && LockStep(s, t, g, ExitDrop(l), ExitMapUnlock)
    requires l < |t.locks| && t.m == if t.locks[l].refs == 0 then s.m - {s.procs[g].call.share} else s.m
    ensures LockInv(t)
  {
    LockStepKeepsMap(s, t, g, ExitDrop(l), ExitMapUnlock);
    LockStepKeepsMu(s, t, g, ExitDrop(l), ExitMapUnlock);
    LockStepKeepsRefs(s, t, g, ExitDrop(l), ExitMapUnlock);
    DropKeepsAttached(s, t, g, l);
    forall id | id in t.m ensures EntryUsed(t, id) {
      assert EntryUsed(s, id) && LockFollows(s, t, g, ExitDrop(l), ExitMapUnlock, s.m[id]);
    }
  }

  /** A step that touches neither the locks nor the map moves only its own goroutine. */
  ghost predicate OnlyMoves(s: State, t: State, g: nat) {
    && t.locks == s.locks && t.m == s.m && t.mapHolder == s.mapHolder
    && g < |s.procs| == |t.procs| && PcFits(t.procs[g])
    && t.procs == s.procs[g := s.procs[g].(pc := t.procs[g].pc)]
  }

  lemma CriticalOnlyMoves(s: State, g: nat, ok: bool)
    requires g < |s.procs| && s.procs[g].call.Confirm?
    requires var pc := s.procs[g].pc; pc.ReadStatus? || pc.CheckSession? || pc.Import? || pc.MarkAccepted?
    ensures var t := Critical(s, g, ok);
      OnlyMoves(s, t, g) && MuOf(s.procs[g].pc) == Some(s.procs[g].pc.l) == MuOf(t.procs[g].pc)
  {
  }

  lemma UnlockedOnlyMoves(s: State, g: nat, ok: bool)
    requires g < |s.procs| && PcFits(s.procs[g])
    requires var pc := s.procs[g].pc; pc.AcceptRead? || pc.AcceptMint? || pc.DeclineRead? || pc.DeclineSave?
    ensures var t := Unlocked(s, g, ok);
      OnlyMoves(s, t, g) && LockOf(s.procs[g].pc) == None == LockOf(t.procs[g].pc)
      && !HoldsMap(s.procs[g].pc) && !HoldsMap(t.procs[g].pc)
  {
  }

  lemma OnlyMovesIsLockStep(s: State, t: State, g: nat)
    requires InRange(s) && OnlyMoves(s, t, g)
    requires var p, q := s.procs[g].pc, t.procs[g].pc;
      HoldsMap(p) == HoldsMap(q) && RefOf(p) == RefOf(q) == LockOf(p) == LockOf(q) && MuOf(p) == MuOf(q)
    ensures LockStep(s, t, g, s.procs[g].pc, t.procs[g].pc)
  {
    hide PcFits, RefOf, MuOf, LockOf, HoldsMap;
    LockedInRange(s, g);
  }

  lemma LockedInRange(s: State, g: nat)
    requires InRange(s) && g < |s.procs|
    ensures LockOf(s.procs[g].pc).Some? ==> LockOf(s.procs[g].pc).value < |s.locks|
  {
    hide PcFits, LockOf;
  }

  lemma CriticalIsLockStep(s: State, g: nat, ok: bool)
    requires InRange(s) && g < |s.procs|
    requires var pc := s.procs[g].pc; pc.ReadStatus? || pc.CheckSession? || pc.Import? || pc.MarkAccepted?
    ensures LockStep(s, Critical(s, g, ok), g, s.procs[g].pc, Critical(s, g, ok).procs[g].pc)
    ensures Critical(s, g, ok).m == s.m
    ensures RefOf(Critical(s, g, ok).procs[g].pc) == LockOf(s.procs[g].pc)
  {
    hide Critical, LockStep;
    CriticalOnlyMoves(s, g, ok);
    OnlyMovesIsLockStep(s, Critical(s, g, ok), g);
  }

  lemma UnlockedIsLockStep(s: State, g: nat, ok: bool)
    requires InRange(s) && g < |s.procs|
    requires var pc := s.procs[g].pc; pc.AcceptRead? || pc.AcceptMint? || pc.DeclineRead? || pc.DeclineSave?
    ensures LockStep(s, Unlocked(s, g, ok), g, s.procs[g].pc, Unlocked(s, g, ok).procs[g].pc)
    ensures Unlocked(s, g, ok).m == s.m
    ensures LockOf(Unlocked(s, g, ok).procs[g].pc) == None
  {
    hide Unlocked, LockStep;
    UnlockedOnlyMoves(s, g, ok);
    OnlyMovesIsLockStep(s, Unlocked(s, g, ok), g);
  }

  lemma StartKeepsRefs(s: State, c: Call)
    requires InRange(s) && RefsCounted(s)
    ensures RefsCounted(s.(procs := s.procs + [Proc(c, EntryPc(c))]))
  {
    forall l: nat | l < |s.locks| ensures s.locks[l].refs == RefCount(s.procs + [Proc(c, EntryPc(c))], l) {
      RefCountAppend(s.procs, Proc(c, EntryPc(c)), l);
    }
  }

  lemma StartKeepsMapHeld(s: State, c: Call)
    requires InRange(s) && MapHeld(s)
    ensures var t := s.(procs := s.procs + [Proc(c, EntryPc(c))]); InRange(t) && MapHeld(t)
  {
  }

  lemma StartKeepsMuHeld(s: State, c: Call)
    requires InRange(s) && MuHeld(s) && InRange(s.(procs := s.procs + [Proc(c, EntryPc(c))]))
    ensures MuHeld(s.(procs := s.procs + [Proc(c, EntryPc(c))]))
  {
    hide PcFits;
  }

  lemma StartKeepsLockInv(s: State, c: Call)
    requires LockInv(s)
    ensures LockInv(s.(procs := s.procs + [Proc(c, EntryPc(c))]))
  {
    var t := s.(procs := s.procs + [Proc(c, EntryPc(c))]);
    StartKeepsMapHeld(s, c);
    StartKeepsMuHeld(s, c);
    StartKeepsRefs(s, c);
    forall id | id in t.m ensures EntryUsed(t, id) { assert EntryUsed(s, id); }
  }

  lemma UnlockedOrCriticalKeepsLockInv(s: State, g: nat, ok: bool)
    requires LockInv(s) && Enabled(s, Step(g, ok))
    requires var pc := s.procs[g].pc;
      !(pc.MapLock? || pc.MapFind? || pc.MapCount? || pc.MapUnlock? || pc.MuLock?)
      && !(pc.MuUnlock? || pc.ExitMapLock? || pc.ExitDrop? || pc.ExitMapUnlock?)
    ensures LockInv(Apply(s, Step(g, ok)))
  {
    hide MapHeld, MuHeld, RefsCounted, Attached, EntriesUsed, Enter, Leave, LockStep;
    var t, pc := Apply(s, Step(g, ok)), s.procs[g].pc;
    if pc.ReadStatus? || pc.CheckSession? || pc.Import? || pc.MarkAccepted? {
      CriticalIsLockStep(s, g, ok);
    } else {
      UnlockedIsLockStep(s, g, ok);
    }
    LockStepKeeps(s, t, g, pc, t.procs[g].pc);
  }

  /** Rows, sessions and tallies play no part in the lock invariant. */
  lemma DataKeepsLockInv(s: State, t: State)
    requires LockInv(s) && t.procs == s.procs && t.locks == s.locks && t.m == s.m && t.mapHolder == s.mapHolder
    ensures LockInv(t)
  {
    forall id | id in t.m ensures EntryUsed(t, id) { assert EntryUsed(s, id); }
  }

  lemma StepKeepsLockInv(s: State, e: Event)
    requires LockInv(s) && Enabled(s, e)
    ensures LockInv(Apply(s, e))
  {
    hide Enter, Leave, Critical, Unlocked, InRange, MapHeld, MuHeld, RefsCounted, Attached, EntriesUsed;
    match e {
      case Create(_, _) => DataKeepsLockInv(s, Apply(s, e));
      case Expire(_) => DataKeepsLockInv(s, Apply(s, e));
      case ConfirmDirectly(_) => DataKeepsLockInv(s, Apply(s, e));
      case Start(c) => StartKeepsLockInv(s, c);
      case Step(g, ok) =>
        var pc := s.procs[g].pc;
        if pc.MapLock? || pc.MapFind? || pc.MapCount? || pc.MapUnlock? || pc.MuLock? {
          EnterKeepsLockInv(s, g);
        } else if pc.MuUnlock? || pc.ExitMapLock? || pc.ExitDrop? || pc.ExitMapUnlock? {
          LeaveKeepsLockInv(s, g);
        } else {
          UnlockedOrCriticalKeepsLockInv(s, g, ok);
        }
    }
  }

  /** Two goroutines inside the critical section of one share are the same goroutine. */
  lemma MutualExclusion(s: State, g: nat, h: nat)
    requires LockInv(s) && g < |s.procs| && h < |s.procs|
    requires MuOf(s.procs[g].pc).Some? && MuOf(s.procs[h].pc).Some?
    requires s.procs[g].call.share == s.procs[h].call.share
    ensures g == h
  {
    assert s.m[s.procs[g].call.share] == MuOf(s.procs[g].pc).value == MuOf(s.procs[h].pc).value;
  }

  // ----- The invariant of imports and statuses -----

  ghost predicate Marking(s: State, id: ShareId) {
    exists g: nat :: g < |s.procs| && s.procs[g].pc.MarkAccepted? && s.procs[g].call.share == id
  }

  /** What a goroutine has established by the time it reaches its pc. */
  ghost predicate ProcInv(s: State, p: Proc) {
    var id := p.call.share;
    var t := s.TallyOf(id);
    && (p.pc.CheckSession? || p.pc.Import? || p.pc.MarkAccepted? || p.pc.DeclineSave? ==>
          id in s.shares && s.shares[id].toUser == p.call.user)
    && (p.pc.CheckSession? || p.pc.Import? ==> t.Confirms() <= t.failedMarks)
    && (p.pc.Import? && p.call.Confirm? ==>
          p.call.session < |s.sessions| && s.sessions[p.call.session].share == id
              && s.sessions[p.call.session].user == p.call.user && !s.sessions[p.call.session].use.ByShare?)
    && (p.pc.MarkAccepted? ==> t.Confirms() > 0)
  }

  /** Every import used up a session minted for this very share and its recipient. */
  ghost predicate ReceiptsSound(s: State, id: ShareId) {
    forall r :: r in s.TallyOf(id).receipts ==>
      && r.session < |s.sessions|
      && s.sessions[r.session].share == id && s.sessions[r.session].user == r.user && s.sessions[r.session].use.ByShare?
      && id in s.shares && s.shares[id].toUser == r.user
  }

  ghost predicate ShareInv(s: State, id: ShareId) {
    var t := s.TallyOf(id);
    && t.Confirms() <= t.failedMarks + 1
    && (id in s.shares && s.shares[id].status == Pending && t.Confirms() > t.failedMarks ==> Marking(s, id))
    && ReceiptsSound(s, id)
    && (if id in s.shares
        then (s.shares[id].status == Declined <==> t.declines > 0)
            && (s.shares[id].status == Accepted ==> t.Confirms() > 0)
        else t == NOTHING.(direct := t.direct))
  }

  ghost predicate ImportInv(s: State) {
    && (forall g: nat :: g < |s.procs| ==> ProcInv(s, s.procs[g]))
    && (forall id :: ShareInv(s, id))
  }

  /** A step that touches neither rows nor sessions nor tallies keeps ImportInv unless it enters or leaves
      the marked pcs. */
  lemma QuietKeepsImportInv(s: State, t: State, g: nat)
    requires ImportInv(s) && g < |s.procs| == |t.procs|
    requires forall h: nat :: h < |s.procs| && h != g ==> t.procs[h] == s.procs[h]
    requires t.shares == s.shares && t.sessions == s.sessions && t.tallies == s.tallies
    requires !s.procs[g].pc.MarkAccepted? && ProcInv(t, t.procs[g])
    ensures ImportInv(t)
  {
    forall h: nat | h < |t.procs| ensures ProcInv(t, t.procs[h]) {
      if h != g { assert ProcInv(s, s.procs[h]); }
    }
    forall id ensures ShareInv(t, id) {
      assert ShareInv(s, id);
      if Marking(s, id) {
        var h: nat :| h < |s.procs| && s.procs[h].pc.MarkAccepted? && s.procs[h].call.share == id;
        assert t.procs[h] == s.procs[h];
      }
    }
  }

  lemma ReadStatusKeepsImportInv(s: State, g: nat, ok: bool)
    requires LockInv(s) && ImportInv(s) && g < |s.procs| && s.procs[g].pc.ReadStatus?
    ensures ImportInv(Critical(s, g, ok))
  {
    var id := s.procs[g].call.share;
    assert ShareInv(s, id);
    if s.ReadsPending(s.procs[g].call, ok) && Marking(s, id) {
      var h: nat :| h < |s.procs| && s.procs[h].pc.MarkAccepted? && s.procs[h].call.share == id;
      MutualExclusion(s, g, h);
      assert false;
    }
    QuietKeepsImportInv(s, Critical(s, g, ok), g);
  }

  /** Nobody else is between reading the status and marking it while g imports. */
  lemma ImportKeepsProcs(s: State, g: nat)
    requires g < |s.procs| && s.procs[g].call.Confirm? && s.procs[g].pc.Import? && LockInv(s) && ImportInv(s)
    requires Critical(s, g, true).procs[g].pc.MarkAccepted?
    ensures var t := Critical(s, g, true); forall h: nat :: h < |t.procs| ==> ProcInv(t, t.procs[h])
  {
    hide MapHeld, MuHeld, RefsCounted, Attached, EntriesUsed, ShareInv, Critical;
    var t := Critical(s, g, true);
    ImportEffect(s, g);
    forall h: nat | h < |t.procs| ensures ProcInv(t, t.procs[h]) {
      assert ProcInv(s, s.procs[h]);
      if h != g && s.procs[h].call.share == s.procs[g].call.share && MuOf(s.procs[h].pc).Some?
          { MutualExclusion(s, g, h); }
    }
  }

  /** What the import changes, or the replay in its place. */
  lemma ImportEffect(s: State, g: nat)
    requires InRange(s) && g < |s.procs| && s.procs[g].pc.Import? && Critical(s, g, true).procs[g].pc.MarkAccepted?
    ensures var t, c := Critical(s, g, true), s.procs[g].call; var was, now := s.TallyOf(c.share), t.TallyOf(c.share);
      && t.shares == s.shares && t.procs == s.procs[g := s.procs[g].(pc := t.procs[g].pc)]
      && (forall id :: id != c.share ==> t.TallyOf(id) == s.TallyOf(id))
      && now == was.(receipts := now.receipts, replays := now.replays) && now.Confirms() == was.Confirms() + 1
      && c.session < |s.sessions| == |t.sessions|
      && (if s.sessions[c.session].use.Unused?
          then t.sessions == s.sessions[c.session := s.sessions[c.session].(use := ByShare)]
              && now.receipts == was.receipts + [Receipt(c.session, c.user)]
          else t.sessions == s.sessions && now.receipts == was.receipts)
  {
    hide RefOf, MuOf, LockOf;
  }

  lemma ImportKeepsShare(s: State, g: nat, id: ShareId)
    requires InRange(s) && ImportInv(s) && g < |s.procs| && s.procs[g].pc.Import?
    requires Critical(s, g, true).procs[g].pc.MarkAccepted?
    ensures ShareInv(Critical(s, g, true), id)
  {
    hide Critical, RefOf, MuOf, LockOf;
    var t := Critical(s, g, true);
    ImportEffect(s, g);
    assert ShareInv(s, id) && ProcInv(s, s.procs[g]);
    if id != s.procs[g].call.share && Marking(s, id) {
      var h: nat :| h < |s.procs| && s.procs[h].pc.MarkAccepted? && s.procs[h].call.share == id;
      assert t.procs[h] == s.procs[h];
    }
    assert t.procs[g].call.share == s.procs[g].call.share;
  }

  lemma ImportKeepsImportInv(s: State, g: nat, ok: bool)
    requires LockInv(s) && ImportInv(s) && g < |s.procs| && s.procs[g].pc.Import?
    ensures ImportInv(Critical(s, g, ok))
  {
    hide ProcInv, ShareInv, MapHeld, MuHeld, RefsCounted, Attached, EntriesUsed;
    var t := Critical(s, g, ok);
    if t.procs[g].pc.MuUnlock? {
      AbandonsNothing(s, g, ok);
      QuietKeepsImportInv(s, t, g);
    } else {
      ImportKeepsProcs(s, g);
      forall id ensures ShareInv(t, id) { ImportKeepsShare(s, g, id); }
    }
  }

  lemma AbandonsNothing(s: State, g: nat, ok: bool)
    requires InRange(s) && ImportInv(s) && g < |s.procs| && s.procs[g].pc.Import?
    requires Critical(s, g, ok).procs[g].pc.MuUnlock?
    ensures ProcInv(Critical(s, g, ok), Critical(s, g, ok).procs[g])
  {
  }

  lemma MarkKeepsProcs(s: State, g: nat, ok: bool)
    requires ImportInv(s) && g < |s.procs| && s.procs[g].call.Confirm? && s.procs[g].pc.MarkAccepted?
    ensures var t := Critical(s, g, ok); forall h: nat :: h < |t.procs| ==> ProcInv(t, t.procs[h])
  {
    var t := Critical(s, g, ok);
    forall h: nat | h < |t.procs| ensures ProcInv(t, t.procs[h]) {
      assert ProcInv(s, s.procs[h]);
    }
  }

  lemma MarkKeepsShare(s: State, g: nat, ok: bool, id: ShareId)
    requires ImportInv(s) && g < |s.procs| && s.procs[g].call.Confirm? && s.procs[g].pc.MarkAccepted?
    ensures ShareInv(Critical(s, g, ok), id)
  {
    var t := Critical(s, g, ok);
    assert ShareInv(s, id) && ProcInv(s, s.procs[g]);
    if id != s.procs[g].call.share && Marking(s, id) {
      var h: nat :| h < |s.procs| && s.procs[h].pc.MarkAccepted? && s.procs[h].call.share == id;
      assert t.procs[h] == s.procs[h];
    }
  }

  lemma MarkKeepsImportInv(s: State, g: nat, ok: bool)
    requires ImportInv(s) && g < |s.procs| && s.procs[g].call.Confirm? && s.procs[g].pc.MarkAccepted?
    ensures ImportInv(Critical(s, g, ok))
  {
    MarkKeepsProcs(s, g, ok);
    forall id ensures ShareInv(Critical(s, g, ok), id) { MarkKeepsShare(s, g, ok, id); }
  }

  lemma MintKeepsImportInv(s: State, g: nat)
    requires ImportInv(s) && g < |s.procs| && s.procs[g].pc.AcceptMint?
    ensures ImportInv(Unlocked(s, g, true))
  {
    var t := Unlocked(s, g, true);
    SessionsChangeKeepsImportInv(s, s.(sessions := t.sessions));
    QuietKeepsImportInv(s.(sessions := t.sessions), t, g);
  }

  /** The sessions of s are still there; none has been imported through its share since. */
  predicate SessionsKept(s: State, t: State) {
    |s.sessions| <= |t.sessions| && forall k: nat :: k < |s.sessions| ==>
      && t.sessions[k].share == s.sessions[k].share && t.sessions[k].user == s.sessions[k].user
      && (t.sessions[k].use.ByShare? <==> s.sessions[k].use.ByShare?)
  }

  /** New sessions, expiries and direct imports disturb nothing. */
  lemma SessionsChangeKeepsImportInv(s: State, t: State)
    requires ImportInv(s) && t == s.(sessions := t.sessions, tallies := t.tallies) && SessionsKept(s, t)
    requires forall id :: t.TallyOf(id) == s.TallyOf(id).(direct := t.TallyOf(id).direct)
    ensures ImportInv(t)
  {
    forall h: nat | h < |t.procs| ensures ProcInv(t, t.procs[h]) { assert ProcInv(s, s.procs[h]); }
    forall id ensures ShareInv(t, id) {
      assert ShareInv(s, id);
      if Marking(s, id) { assert Marking(t, id); }
    }
  }

  lemma DeclineSaveKeepsImportInv(s: State, g: nat)
    requires ImportInv(s) && g < |s.procs| && s.procs[g].pc.DeclineSave?
    ensures ImportInv(Unlocked(s, g, true))
  {
    var t := Unlocked(s, g, true);
    assert ProcInv(s, s.procs[g]);
    forall h: nat | h < |t.procs| ensures ProcInv(t, t.procs[h]) { assert ProcInv(s, s.procs[h]); }
    forall id ensures ShareInv(t, id) {
      assert ShareInv(s, id);
      if Marking(s, id) {
        var h: nat :| h < |s.procs| && s.procs[h].pc.MarkAccepted? && s.procs[h].call.share == id;
        assert t.procs[h] == s.procs[h];
      }
    }
  }

  lemma CreateKeepsImportInv(s: State, id: ShareId, toUser: UserId)
    requires ImportInv(s) && id !in s.shares
    ensures ImportInv(s.(shares := s.shares[id := Share(toUser, Pending)]))
  {
    var t := s.(shares := s.shares[id := Share(toUser, Pending)]);
    forall h: nat | h < |t.procs| ensures ProcInv(t, t.procs[h]) { assert ProcInv(s, s.procs[h]) && ShareInv(s, id); }
    forall k ensures ShareInv(t, k) {
      assert ShareInv(s, k);
      if Marking(s, k) { assert Marking(t, k); }
    }
  }

  lemma StartKeepsImportInv(s: State, c: Call)
    requires ImportInv(s)
    ensures ImportInv(s.(procs := s.procs + [Proc(c, EntryPc(c))]))
  {
    var t := s.(procs := s.procs + [Proc(c, EntryPc(c))]);
    forall h: nat | h < |t.procs| ensures ProcInv(t, t.procs[h]) {
      if h < |s.procs| { assert ProcInv(s, s.procs[h]); }
    }
    forall id ensures ShareInv(t, id) {
      assert ShareInv(s, id);
      if Marking(s, id) {
        var h: nat :| h < |s.procs| && s.procs[h].pc.MarkAccepted? && s.procs[h].call.share == id;
        assert t.procs[h] == s.procs[h];
      }
    }
  }

  lemma CriticalKeepsImportInv(s: State, g: nat, ok: bool)
    requires LockInv(s) && ImportInv(s) && g < |s.procs|
    requires var pc := s.procs[g].pc; pc.ReadStatus? || pc.CheckSession? || pc.Import? || pc.MarkAccepted?
    ensures ImportInv(Critical(s, g, ok))
  {
    var pc := s.procs[g].pc;
    if pc.ReadStatus? {
      ReadStatusKeepsImportInv(s, g, ok);
    } else if pc.Import? {
      ImportKeepsImportInv(s, g, ok);
    } else if pc.MarkAccepted? {
      MarkKeepsImportInv(s, g, ok);
    } else {
      assert ProcInv(s, s.procs[g]);
      QuietKeepsImportInv(s, Critical(s, g, ok), g);
    }
  }

  lemma UnlockedKeepsImportInv(s: State, g: nat, ok: bool)
    requires ImportInv(s) && g < |s.procs|
    requires var pc := s.procs[g].pc; pc.AcceptRead? || pc.AcceptMint? || pc.DeclineRead? || pc.DeclineSave?
    ensures ImportInv(Unlocked(s, g, ok))
  {
    var pc := s.procs[g].pc;
    if pc.AcceptMint? && ok {
      MintKeepsImportInv(s, g);
    } else if pc.DeclineSave? && ok {
      DeclineSaveKeepsImportInv(s, g);
    } else {
      QuietKeepsImportInv(s, Unlocked(s, g, ok), g);
    }
  }

  lemma LockSectionKeepsImportInv(s: State, t: State, g: nat)
    requires LockInv(s) && ImportInv(s) && g < |s.procs| && Enabled(s, Step(g, true))
    requires var pc := s.procs[g].pc;
      if pc.MapLock? || pc.MapFind? || pc.MapCount? || pc.MapUnlock? || pc.MuLock? then t == Enter(s, g)
      else (pc.MuUnlock? || pc.ExitMapLock? || pc.ExitDrop? || pc.ExitMapUnlock?) && t == Leave(s, g)
    ensures ImportInv(t)
  {
    QuietKeepsImportInv(s, t, g);
  }

  lemma StepKeepsImportInv(s: State, e: Event)
    requires LockInv(s) && ImportInv(s) && Enabled(s, e)
    ensures ImportInv(Apply(s, e))
  {
    hide Enter, Leave, Critical, Unlocked, InRange, MapHeld, MuHeld, RefsCounted, Attached, EntriesUsed, ImportInv;
    match e {
      case Create(id, toUser) => CreateKeepsImportInv(s, id, toUser);
      case Expire(_) => SessionsChangeKeepsImportInv(s, Apply(s, e));
      case ConfirmDirectly(_) => SessionsChangeKeepsImportInv(s, Apply(s, e));
      case Start(c) => StartKeepsImportInv(s, c);
      case Step(g, ok) =>
        var pc := s.procs[g].pc;
        if pc.ReadStatus? || pc.CheckSession? || pc.Import? || pc.MarkAccepted? {
          CriticalKeepsImportInv(s, g, ok);
        } else if pc.AcceptRead? || pc.AcceptMint? || pc.DeclineRead? || pc.DeclineSave? {
          UnlockedKeepsImportInv(s, g, ok);
        } else {
          LockSectionKeepsImportInv(s, Apply(s, e), g);
        }
    }
  }

  // ----- Runs -----

  ghost predicate Inv(s: State) {
    LockInv(s) && ImportInv(s)
  }

  lemma StepKeepsInv(s: State, e: Event)
    requires Inv(s) && Enabled(s, e)
    ensures Inv(Apply(s, e))
  {
    hide LockInv, ImportInv, Apply, Enabled, InRange;
    StepKeepsLockInv(s, e);
    StepKeepsImportInv(s, e);
  }

  /** es is a run of the server from s to t. */
  ghost predicate Run(s: State, es: seq<Event>, t: State)
    decreases |es|
  {
    if es == [] then s == t
    else InRange(s) && Enabled(s, es[0]) && Run(Apply(s, es[0]), es[1..], t)
  }

  ghost predicate LeadsTo(s: State, t: State) {
    exists es :: Run(s, es, t)
  }

  ghost predicate Reachable(s: State) {
    LeadsTo(Init(), s)
  }

  lemma {:induction false} RunKeepsInv(s: State, es: seq<Event>, t: State)
    requires Inv(s) && Run(s, es, t)
    ensures Inv(t)
    decreases |es|
  {
    if es != [] {
      StepKeepsLockInv(s, es[0]);
      StepKeepsImportInv(s, es[0]);
      RunKeepsInv(Apply(s, es[0]), es[1..], t);
    }
  }

  lemma ReachableInv(s: State)
    requires Reachable(s)
    ensures Inv(s)
  {
    var es :| Run(Init(), es, s);
    RunKeepsInv(Init(), es, s);
  }

  lemma ReachableInRange(s: State)
    requires Reachable(s)
    ensures InRange(s)
  {
    ReachableInv(s);
  }

  /** Per share, at most one goroutine is past l.mu.Lock(). */
  lemma OneConfirmAtATime(s: State, g: nat, h: nat)
    requires Reachable(s) && g < |s.procs| && h < |s.procs| && s.procs[g].call.share == s.procs[h].call.share
    requires MuOf(s.procs[g].pc).Some? && MuOf(s.procs[h].pc).Some?
    ensures g == h
  {
    ReachableInv(s);
    MutualExclusion(s, g, h);
  }

  /** Whenever the map mutex is free, the map holds an entry for a share exactly when some goroutine is
      between refs++ and refs-- for it, every such goroutine uses that one lock object, and refs counts them. */
  lemma EntryIffReferenced(s: State, id: ShareId)
    requires Reachable(s) && s.mapHolder == None
    ensures id in s.m <==> exists g: nat :: g < |s.procs| && RefOf(s.procs[g].pc).Some? && s.procs[g].call.share == id
    ensures id in s.m ==> s.m[id] < |s.locks| && s.locks[s.m[id]].refs == RefCount(s.procs, s.m[id])
    ensures forall g: nat :: g < |s.procs| && RefOf(s.procs[g].pc).Some? && s.procs[g].call.share == id ==>
      id in s.m && RefOf(s.procs[g].pc) == Some(s.m[id])
  {
    hide PcFits, MuHeld, ImportInv;
    ReachableInv(s);
    if id in s.m {
      assert EntryUsed(s, id);
      RefCountPositive(s.procs, s.m[id]);
      var g: nat :| g < |s.procs| && RefOf(s.procs[g].pc) == Some(s.m[id]);
      var other := s.procs[g].call.share;
      assert s.m[other] == s.m[id] && EntryUsed(s, other);
    }
  }

  /** Confirms of a share, whatever the ordinary endpoint does with its sessions, import it at most once more than its
      status UPDATE has failed after one of them. */
  lemma ImportedAtMostOnce(s: State, id: ShareId)
    requires Reachable(s)
    ensures |s.TallyOf(id).receipts| <= s.TallyOf(id).Confirms() <= 1 + s.TallyOf(id).failedMarks
    ensures s.TallyOf(id).failedMarks == 0 ==> |s.TallyOf(id).receipts| <= 1
  {
    ReachableInv(s);
    assert ShareInv(s, id);
  }

  /** Every import is made by the share's recipient, with a session an Accept minted for this very share. */
  lemma ImportsAreTheRecipients(s: State, id: ShareId, r: Receipt)
    requires Reachable(s) && r in s.TallyOf(id).receipts
    ensures id in s.shares && s.shares[id].toUser == r.user
    ensures r.session < |s.sessions| && s.sessions[r.session].share == id && s.sessions[r.session].user == r.user
  {
    ReachableInv(s);
    assert ShareInv(s, id);
  }

  /** The row may only leave Pending, and Declined is for ever. */
  predicate ResponseKept(s: State, t: State, id: ShareId) {
    id in s.shares ==>
      && id in t.shares && t.shares[id].toUser == s.shares[id].toUser
      && (s.shares[id].status != Pending ==> t.shares[id].status != Pending)
      && (s.shares[id].status == Declined ==> t.shares[id].status == Declined)
  }

  lemma UnlockedKeepsResponse(s: State, g: nat, ok: bool, id: ShareId)
    requires g < |s.procs| && ProcInv(s, s.procs[g])
    requires var pc := s.procs[g].pc; pc.AcceptRead? || pc.AcceptMint? || pc.DeclineRead? || pc.DeclineSave?
    ensures ResponseKept(s, Unlocked(s, g, ok), id)
  {
  }

  lemma StepKeepsResponse(s: State, e: Event, id: ShareId)
    requires InRange(s) && ImportInv(s) && Enabled(s, e)
    ensures ResponseKept(s, Apply(s, e), id)
  {
    if e.Step? {
      assert ProcInv(s, s.procs[e.g]);
      var pc := s.procs[e.g].pc;
      if pc.AcceptRead? || pc.AcceptMint? || pc.DeclineRead? || pc.DeclineSave? {
        UnlockedKeepsResponse(s, e.g, e.ok, id);
      }
    }
  }

  /** A response is final: no run takes a share back to pending, and none takes it from declined to accepted. */
  lemma {:induction false} ResponsesAreFinal(s: State, es: seq<Event>, t: State, id: ShareId)
    requires Inv(s) && Run(s, es, t) && id in s.shares
    ensures id in t.shares && t.shares[id].toUser == s.shares[id].toUser
    ensures s.shares[id].status != Pending ==> t.shares[id].status != Pending
    ensures s.shares[id].status == Declined ==> t.shares[id].status == Declined
    decreases |es|
  {
    if es != [] {
      StepKeepsResponse(s, es[0], id);
      StepKeepsLockInv(s, es[0]);
      StepKeepsImportInv(s, es[0]);
      ResponsesAreFinal(Apply(s, es[0]), es[1..], t, id);
    }
  }

  /** With no failed UPDATE and no confirm between its import and its UPDATE, the status says what happened
      (accepted iff confirmed) exactly when the share was not both confirmed and declined. */
  lemma StatusTellsTheTruth(s: State, id: ShareId)
    requires Reachable(s) && id in s.shares && s.TallyOf(id).failedMarks == 0 && !Marking(s, id)
    ensures (s.shares[id].status == Accepted <==> s.TallyOf(id).Confirms() == 1)
       <==> !(s.TallyOf(id).Confirms() == 1 && s.TallyOf(id).declines > 0)
    ensures s.shares[id].status == Declined <==> s.TallyOf(id).declines > 0
    ensures s.shares[id].status == Pending ==> s.TallyOf(id).Confirms() == 0
  {
    ReachableInv(s);
    assert ShareInv(s, id);
  }

  /** t has the rows and sessions of s, and the same record of imports and declines for a share. */
  predicate SameRecord(s: State, t: State, id: ShareId) {
    && t.shares == s.shares && t.sessions == s.sessions
    && t.TallyOf(id) == s.TallyOf(id).(failedMarks := t.TallyOf(id).failedMarks)
  }

  lemma FailedCriticalChangesNothing(s: State, g: nat, id: ShareId)
    requires g < |s.procs| && s.procs[g].call.Confirm?
    requires var pc := s.procs[g].pc; pc.ReadStatus? || pc.CheckSession? || pc.Import? || pc.MarkAccepted?
    ensures SameRecord(s, Critical(s, g, false), id)
  {
  }

  lemma LockSectionChangesNothing(s: State, t: State, g: nat, id: ShareId)
    requires InRange(s) && g < |s.procs|
    requires var pc := s.procs[g].pc;
      if pc.MapLock? || pc.MapFind? || pc.MapCount? || pc.MapUnlock? || pc.MuLock? then t == Enter(s, g)
      else (pc.MuUnlock? || pc.ExitMapLock? || pc.ExitDrop? || pc.ExitMapUnlock?) && t == Leave(s, g)
    ensures SameRecord(s, t, id)
  {
    hide PcFits;
  }

  /** A step that fails changes no row, no session and no record of imports, whoever takes it: a failed import leaves
      the share as it was. */
  lemma FailedStepsChangeNothing(s: State, g: nat, id: ShareId)
    requires InRange(s) && Enabled(s, Step(g, false))
    ensures SameRecord(s, Apply(s, Step(g, false)), id)
  {
    hide Enter, Leave, Critical, SameRecord;
    var pc := s.procs[g].pc;
    if pc.ReadStatus? || pc.CheckSession? || pc.Import? || pc.MarkAccepted? {
      FailedCriticalChangesNothing(s, g, id);
    } else if pc.AcceptRead? || pc.AcceptMint? || pc.DeclineRead? || pc.DeclineSave? {
      FailedUnlockedChangesNothing(s, g, id);
    } else {
      LockSectionChangesNothing(s, Apply(s, Step(g, false)), g, id);
    }
  }

  lemma FailedUnlockedChangesNothing(s: State, g: nat, id: ShareId)
    requires g < |s.procs|
    requires var pc := s.procs[g].pc; pc.AcceptRead? || pc.AcceptMint? || pc.DeclineRead? || pc.DeclineSave?
    ensures SameRecord(s, Unlocked(s, g, false), id)
  {
  }

  /** All that is left for the goroutine is to release the lock, if it took one. */
  predicate Leaving(pc: Pc) {
    pc.MuUnlock? || pc.ExitMapLock? || pc.ExitDrop? || pc.ExitMapUnlock? || pc.Done?
  }

  predicate SameData(s: State, t: State) {
    t.shares == s.shares && t.sessions == s.sessions && t.tallies == s.tallies
  }

  lemma LeaveKeepsData(s: State, g: nat)
    requires InRange(s) && g < |s.procs| && Leaving(s.procs[g].pc) && !s.procs[g].pc.Done?
    ensures var t := Leave(s, g); SameData(s, t) && g < |t.procs| && Leaving(t.procs[g].pc)
  {
    hide PcFits;
  }

  /** Other goroutines leave a goroutine's program counter alone. */
  lemma OthersKeepPc(s: State, e: Event, g: nat)
    requires InRange(s) && Enabled(s, e) && g < |s.procs| && (e.Step? ==> e.g != g)
    ensures var t := Apply(s, e); g < |t.procs| && t.procs[g] == s.procs[g]
  {
    hide Enter, Leave, Critical, Unlocked;
    if e.Step? { StepAdvances(s, e.g, e.ok); }
  }

  /** Whatever others do in between, a goroutine that is leaving stays so. */
  lemma {:induction false} LeavingStays(s: State, es: seq<Event>, t: State, g: nat)
    requires Run(s, es, t) && g < |s.procs| && Leaving(s.procs[g].pc)
    ensures g < |t.procs| && Leaving(t.procs[g].pc)
    decreases |es|
  {
    hide InRange, Critical, Unlocked, Enter, Leave;
    if es != [] {
      if es[0].Step? && es[0].g == g { LeaveKeepsData(s, g); } else { OthersKeepPc(s, es[0], g); }
      LeavingStays(Apply(s, es[0]), es[1..], t, g);
    }
  }

  /** A call that finds its share missing, addressed to another user or already answered has no effect at all: neither
      that read nor, however others run in between, any step the call takes from then on changes a row, a session or
      the record of a share. */
  lemma RefusedCallsChangeNothing(s: State, g: nat, ok: bool, es: seq<Event>, u: State, later: bool)
    requires InRange(s) && Enabled(s, Step(g, ok))
    requires !ok || !PendingFor(s, s.procs[g].call.share, s.procs[g].call.user)
    requires s.procs[g].pc.AcceptRead? || s.procs[g].pc.DeclineRead? || s.procs[g].pc.ReadStatus?
    requires Run(Apply(s, Step(g, ok)), es, u)
    ensures SameData(s, Apply(s, Step(g, ok)))
    ensures InRange(u) && Enabled(u, Step(g, later)) ==> SameData(u, Apply(u, Step(g, later)))
  {
    hide Enter, PcFits;
    var t := Apply(s, Step(g, ok));
    assert Leaving(t.procs[g].pc);
    LeavingStays(t, es, u, g);
    if InRange(u) && Enabled(u, Step(g, later)) { LeaveKeepsData(u, g); }
  }

  /** Only two kinds of step ever change a share's row, each only the row of its own call: the UPDATE after an import,
      from pending to accepted, and the save of a decline. */
  lemma OnlyResponsesChangeRows(s: State, e: Event, id: ShareId)
    requires InRange(s) && Enabled(s, e) && id in s.shares && id in Apply(s, e).shares
    requires Apply(s, e).shares[id] != s.shares[id]
    ensures e.Step? && e.ok && s.procs[e.g].call.share == id
    ensures (s.procs[e.g].pc.MarkAccepted? && s.shares[id].status == Pending
      && Apply(s, e).shares[id] == s.shares[id].(status := Accepted))
         || (s.procs[e.g].pc.DeclineSave? && Apply(s, e).shares[id].status == Declined)
  {
    hide LockOf, RefOf, MuOf;
  }

  // ----- Imported and declined -----

  /** The share has been both confirmed and declined, so its status cannot say both. */
  predicate Both(s: State, id: ShareId) {
    s.TallyOf(id).Confirms() > 0 && s.TallyOf(id).declines > 0
  }

  /** The step saves a decline of a share already confirmed, or confirms a share already declined. */
  predicate Completes(s: State, e: Event, id: ShareId) {
    && e.Step? && e.ok && e.g < |s.procs| && s.procs[e.g].call.share == id
    && var p := s.procs[e.g];
    || (p.pc.DeclineSave? && s.TallyOf(id).Confirms() > 0)
    || (p.pc.Import? && p.call.Confirm? && s.TallyOf(id).declines > 0
        && p.call.session < |s.sessions| && s.sessions[p.call.session].kept)
  }

  lemma UnlockedMakesBothIff(s: State, g: nat, ok: bool, id: ShareId)
    requires g < |s.procs|
    requires var pc := s.procs[g].pc; pc.AcceptRead? || pc.AcceptMint? || pc.DeclineRead? || pc.DeclineSave?
    ensures Both(Unlocked(s, g, ok), id) <==> Both(s, id) || Completes(s, Step(g, ok), id)
  {
  }

  lemma CriticalMakesBothIff(s: State, g: nat, ok: bool, id: ShareId)
    requires g < |s.procs| && s.procs[g].call.Confirm?
    requires var pc := s.procs[g].pc; pc.ReadStatus? || pc.CheckSession? || pc.Import? || pc.MarkAccepted?
    ensures Both(Critical(s, g, ok), id) <==> Both(s, id) || Completes(s, Step(g, ok), id)
  {
  }

  /** One step makes a share both confirmed and declined exactly if it completes the pair. */
  lemma StepMakesBothIff(s: State, e: Event, id: ShareId)
    requires InRange(s) && Enabled(s, e)
    ensures Both(Apply(s, e), id) <==> Both(s, id) || Completes(s, e, id)
  {
    hide Enter, Leave, Critical, Unlocked;
    if e.Step? {
      var pc := s.procs[e.g].pc;
      if pc.ReadStatus? || pc.CheckSession? || pc.Import? || pc.MarkAccepted? {
        CriticalMakesBothIff(s, e.g, e.ok, id);
      } else if pc.AcceptRead? || pc.AcceptMint? || pc.DeclineRead? || pc.DeclineSave? {
        UnlockedMakesBothIff(s, e.g, e.ok, id);
      } else {
        LockSectionChangesNothing(s, Apply(s, e), e.g, id);
      }
    }
  }

  ghost predicate SomeStepCompletes(s: State, es: seq<Event>, id: ShareId)
    decreases |es|
  {
    && es != [] && InRange(s) && Enabled(s, es[0])
    && (Completes(s, es[0], id) || SomeStepCompletes(Apply(s, es[0]), es[1..], id))
  }

  lemma {:induction false} RunKeepsBoth(s: State, es: seq<Event>, t: State, id: ShareId)
    requires Run(s, es, t) && Both(s, id)
    ensures Both(t, id)
    decreases |es|
  {
    hide Enter, Leave, Critical, Unlocked, Both, InRange, Completes;
    if es != [] {
      StepMakesBothIff(s, es[0], id);
      RunKeepsBoth(Apply(s, es[0]), es[1..], t, id);
    }
  }

  /** A run leaves a share both confirmed and declined exactly if some step of it saves a decline after a confirm's
      import, or confirms after a decline. */
  lemma {:induction false} BothIff(s: State, es: seq<Event>, t: State, id: ShareId)
    requires Run(s, es, t) && !Both(s, id)
    ensures Both(t, id) <==> SomeStepCompletes(s, es, id)
    decreases |es|
  {
    hide Enter, Leave, Critical, Unlocked, Both, InRange, Completes;
    if es != [] {
      StepMakesBothIff(s, es[0], id);
      if Completes(s, es[0], id) {
        RunKeepsBoth(Apply(s, es[0]), es[1..], t, id);
      } else {
        BothIff(Apply(s, es[0]), es[1..], t, id);
      }
    }
  }

  /** A decline of the share sits between its read and its save while a confirm of it is past its status read. */
  ghost predicate Overlap(s: State, id: ShareId) {
    exists g: nat, h: nat :: SavesDuring(s, g, h, id)
  }

  predicate SavesDuring(s: State, g: nat, h: nat, id: ShareId) {
    && g < |s.procs| && s.procs[g].call.share == id && s.procs[g].pc.DeclineSave?
    && h < |s.procs| && s.procs[h].call.share == id
    && (s.procs[h].pc.CheckSession? || s.procs[h].pc.Import? || s.procs[h].pc.MarkAccepted?)
  }

  ghost predicate NeverOverlaps(s: State, es: seq<Event>, id: ShareId)
    decreases |es|
  {
    !Overlap(s, id) && (es != [] ==> InRange(s) && Enabled(s, es[0]) && NeverOverlaps(Apply(s, es[0]), es[1..], id))
  }

  /** A pending decline has seen no import and a pending import no decline. */
  ghost predicate Apart(s: State, id: ShareId) {
    && !Both(s, id)
    && forall g: nat :: g < |s.procs| && s.procs[g].call.share == id ==>
         && (s.procs[g].pc.DeclineSave? ==> s.TallyOf(id).Confirms() == 0)
         && (s.procs[g].pc.CheckSession? || s.procs[g].pc.Import? ==> s.TallyOf(id).declines == 0)
  }

  /** A step that keeps the record keeps the calls apart unless it starts a pending decline or import. */
  lemma QuietKeepsApart(s: State, t: State, g: nat, id: ShareId)
    requires Apart(s, id) && g < |s.procs| == |t.procs| && t.procs[g].call == s.procs[g].call
    requires t.TallyOf(id).Confirms() == s.TallyOf(id).Confirms() && t.TallyOf(id).declines == s.TallyOf(id).declines
    requires forall h: nat :: h < |s.procs| && h != g ==> t.procs[h] == s.procs[h]
    requires !t.procs[g].pc.DeclineSave? && !t.procs[g].pc.CheckSession?
    requires (t.procs[g].pc.Import? ==> s.procs[g].pc.CheckSession?)
    ensures Apart(t, id)
  {
  }

  lemma DeclineReadKeepsApart(s: State, g: nat, ok: bool, id: ShareId)
    requires ImportInv(s) && Apart(s, id) && g < |s.procs| && s.procs[g].pc.DeclineRead?
    requires !Overlap(Unlocked(s, g, ok), id) && s.TallyOf(id).failedMarks == 0
    ensures Apart(Unlocked(s, g, ok), id)
  {
    hide ProcInv;
    var t := Unlocked(s, g, ok);
    assert ShareInv(s, id);
    if t.procs[g].pc.DeclineSave? && t.procs[g].call.share == id {
      NobodyPastRead(t, g, id);
      forall h: nat | h < |s.procs| ensures !(s.procs[h].pc.MarkAccepted? && s.procs[h].call.share == id) {
        assert h != g ==> t.procs[h] == s.procs[h];
      }
      assert !Marking(s, id);
    }
  }

  lemma NobodyPastRead(s: State, g: nat, id: ShareId)
    requires !Overlap(s, id) && g < |s.procs| && s.procs[g].call.share == id && s.procs[g].pc.DeclineSave?
    ensures forall h: nat :: h < |s.procs| && s.procs[h].call.share == id ==>
      !s.procs[h].pc.CheckSession? && !s.procs[h].pc.Import? && !s.procs[h].pc.MarkAccepted?
  {
    forall h: nat | h < |s.procs| && s.procs[h].call.share == id
      ensures !s.procs[h].pc.CheckSession? && !s.procs[h].pc.Import? && !s.procs[h].pc.MarkAccepted?
    {
      assert !SavesDuring(s, g, h, id);
    }
  }

  lemma NobodySaves(s: State, h: nat, id: ShareId)
    requires !Overlap(s, id) && h < |s.procs| && s.procs[h].call.share == id && s.procs[h].pc.Import?
    ensures forall g: nat :: g < |s.procs| && s.procs[g].call.share == id ==> !s.procs[g].pc.DeclineSave?
  {
    forall g: nat | g < |s.procs| && s.procs[g].call.share == id ensures !s.procs[g].pc.DeclineSave? {
      assert !SavesDuring(s, g, h, id);
    }
  }

  lemma DeclineSaveKeepsApart(s: State, g: nat, id: ShareId)
    requires Apart(s, id) && !Overlap(s, id) && g < |s.procs| && s.procs[g].pc.DeclineSave?
    ensures Apart(Unlocked(s, g, true), id)
  {
    var t := Unlocked(s, g, true);
    if s.procs[g].call.share == id { NobodyPastRead(s, g, id); }
    assert forall h: nat :: h < |s.procs| && h != g ==> t.procs[h] == s.procs[h];
  }

  lemma ReadStatusKeepsApart(s: State, g: nat, ok: bool, id: ShareId)
    requires ImportInv(s) && Apart(s, id) && g < |s.procs| && s.procs[g].call.Confirm? && s.procs[g].pc.ReadStatus?
    ensures Apart(Critical(s, g, ok), id)
  {
    hide ProcInv;
    assert ShareInv(s, id);
  }

  lemma ImportKeepsApart(s: State, g: nat, id: ShareId)
    requires Apart(s, id) && !Overlap(s, id) && g < |s.procs| && s.procs[g].call.Confirm? && s.procs[g].pc.Import?
    ensures Apart(Critical(s, g, true), id)
  {
    var t := Critical(s, g, true);
    if s.procs[g].call.share == id { NobodySaves(s, g, id); }
    assert forall h: nat :: h < |s.procs| && h != g ==> t.procs[h] == s.procs[h];
  }

  lemma CriticalKeepsApart(s: State, g: nat, ok: bool, id: ShareId)
    requires InRange(s) && ImportInv(s) && Apart(s, id) && !Overlap(s, id) && g < |s.procs|
    requires var pc := s.procs[g].pc; pc.ReadStatus? || pc.CheckSession? || pc.Import? || pc.MarkAccepted?
    ensures Apart(Critical(s, g, ok), id)
  {
    hide ImportInv, Overlap, Apart;
    var pc := s.procs[g].pc;
    if pc.ReadStatus? {
      ReadStatusKeepsApart(s, g, ok, id);
    } else if pc.Import? && ok {
      ImportKeepsApart(s, g, id);
    } else {
      QuietKeepsApart(s, Critical(s, g, ok), g, id);
    }
  }

  lemma UnlockedKeepsApart(s: State, g: nat, ok: bool, id: ShareId)
    requires ImportInv(s) && Apart(s, id) && !Overlap(s, id) && g < |s.procs|
    requires var pc := s.procs[g].pc; pc.AcceptRead? || pc.AcceptMint? || pc.DeclineRead? || pc.DeclineSave?
    requires !Overlap(Unlocked(s, g, ok), id) && s.TallyOf(id).failedMarks == 0
    ensures Apart(Unlocked(s, g, ok), id)
  {
    hide ImportInv, Overlap;
    var pc := s.procs[g].pc;
    if pc.DeclineRead? {
      DeclineReadKeepsApart(s, g, ok, id);
    } else if pc.DeclineSave? && ok {
      DeclineSaveKeepsApart(s, g, id);
    }
  }

  lemma LockSectionKeepsApart(s: State, t: State, g: nat, id: ShareId)
    requires InRange(s) && Apart(s, id) && g < |s.procs|
    requires var pc := s.procs[g].pc;
      if pc.MapLock? || pc.MapFind? || pc.MapCount? || pc.MapUnlock? || pc.MuLock? then t == Enter(s, g)
      else (pc.MuUnlock? || pc.ExitMapLock? || pc.ExitDrop? || pc.ExitMapUnlock?) && t == Leave(s, g)
    ensures Apart(t, id)
  {
    hide Apart, PcFits;
    LockSectionChangesNothing(s, t, g, id);
    QuietKeepsApart(s, t, g, id);
  }

  lemma StepKeepsApart(s: State, e: Event, id: ShareId)
    requires InRange(s) && ImportInv(s) && Apart(s, id) && Enabled(s, e)
    requires !Overlap(s, id) && !Overlap(Apply(s, e), id) && s.TallyOf(id).failedMarks == 0
    ensures Apart(Apply(s, e), id)
  {
    hide Enter, Leave, Critical, Unlocked, ImportInv, Overlap, EntryPc;
    if e.Step? {
      var pc := s.procs[e.g].pc;
      if pc.ReadStatus? || pc.CheckSession? || pc.Import? || pc.MarkAccepted? {
        CriticalKeepsApart(s, e.g, e.ok, id);
      } else if pc.AcceptRead? || pc.AcceptMint? || pc.DeclineRead? || pc.DeclineSave? {
        UnlockedKeepsApart(s, e.g, e.ok, id);
      } else {
        LockSectionKeepsApart(s, Apply(s, e), e.g, id);
      }
    } else if e.Start? {
      EntryIsQuiet(e.call);
    }
  }

  lemma EntryIsQuiet(c: Call)
    ensures !EntryPc(c).DeclineSave? && !EntryPc(c).CheckSession? && !EntryPc(c).Import?
  {
  }

  lemma FailedMarksGrow(s: State, e: Event, id: ShareId)
    requires InRange(s) && Enabled(s, e)
    ensures s.TallyOf(id).failedMarks <= Apply(s, e).TallyOf(id).failedMarks
  {
    hide LockOf;
  }

  lemma {:induction false} RunFailedMarksGrow(s: State, es: seq<Event>, t: State, id: ShareId)
    requires Run(s, es, t)
    ensures s.TallyOf(id).failedMarks <= t.TallyOf(id).failedMarks
    decreases |es|
  {
    hide Enter, Leave, Critical, Unlocked, InRange;
    if es != [] {
      FailedMarksGrow(s, es[0], id);
      RunFailedMarksGrow(Apply(s, es[0]), es[1..], t, id);
    }
  }

  lemma {:induction false} RunKeepsApart(s: State, es: seq<Event>, t: State, id: ShareId)
    requires Inv(s) && Apart(s, id) && Run(s, es, t) && NeverOverlaps(s, es, id) && t.TallyOf(id).failedMarks == 0
    ensures Apart(t, id)
    decreases |es|
  {
    hide Enter, Leave, Critical, Unlocked, MapHeld, MuHeld, RefsCounted, Attached, EntriesUsed,
        ImportInv, Apart, Overlap, InRange;
    if es != [] {
      var u := Apply(s, es[0]);
      RunFailedMarksGrow(s, es, t, id);
      StepKeepsApart(s, es[0], id);
      StepKeepsLockInv(s, es[0]);
      StepKeepsImportInv(s, es[0]);
      RunKeepsApart(u, es[1..], t, id);
    }
  }

  /** In a run in which no decline sits between its read and its save while a confirm of the share is past its status
      read, and no UPDATE after an import fails, no share is ever both confirmed and declined. */
  lemma WithoutOverlapNeverBoth(es: seq<Event>, t: State, id: ShareId)
    requires Run(Init(), es, t) && NeverOverlaps(Init(), es, id) && t.TallyOf(id).failedMarks == 0
    ensures !Both(t, id)
  {
    RunKeepsApart(Init(), es, t, id);
  }

  /** Then, outside the gap between an import and its UPDATE, the status says exactly whether the share was
      confirmed. */
  lemma StatusIsRightWithoutOverlap(es: seq<Event>, t: State, id: ShareId)
    requires Run(Init(), es, t) && NeverOverlaps(Init(), es, id) && t.TallyOf(id).failedMarks == 0
    requires id in t.shares && !Marking(t, id)
    ensures t.shares[id].status == Accepted <==> t.TallyOf(id).Confirms() == 1
    ensures t.shares[id].status == Pending <==> t.TallyOf(id).Confirms() == 0 && t.TallyOf(id).declines == 0
  {
    hide Run, NeverOverlaps, Marking, Inv;
    WithoutOverlapNeverBoth(es, t, id);
    StatusTellsTheTruth(t, id) by { assert LeadsTo(Init(), t); }
  }

  // ----- Progress -----

  /** Steps a goroutine still has to take, at most. */
  function Rank(pc: Pc): nat {
    match pc
    case MapLock => 13
    case MapFind => 12
    case MapCount(_) => 11
    case MapUnlock(_) => 10
    case MuLock(_) => 9
    case ReadStatus(_) => 8
    case CheckSession(_) => 7
    case Import(_) => 6
    case MarkAccepted(_) => 5
    case MuUnlock(_) => 4
    case ExitMapLock(_) => 3
    case ExitDrop(_) => 2
    case ExitMapUnlock => 1
    case AcceptRead => 2
    case AcceptMint => 1
    case DeclineRead => 2
    case DeclineSave => 1
    case Done => 0
  }

  function Work(procs: seq<Proc>): nat {
    if procs == [] then 0 else Work(procs[..|procs| - 1]) + Rank(procs[|procs| - 1].pc)
  }

  lemma {:induction false} WorkUpdate(procs: seq<Proc>, g: nat, p: Proc)
    requires g < |procs|
    ensures Work(procs[g := p]) == Work(procs) - Rank(procs[g].pc) + Rank(p.pc)
  {
    var n := |procs| - 1;
    if g == n {
      assert procs[g := p][..n] == procs[..n];
    } else {
      assert procs[g := p][..n] == procs[..n][g := p];
      WorkUpdate(procs[..n], g, p);
    }
  }

  lemma {:induction false} WorkPositive(procs: seq<Proc>)
    ensures Work(procs) > 0 <==> exists g: nat :: g < |procs| && !procs[g].pc.Done?
  {
    if procs != [] {
      var n := |procs| - 1;
      WorkPositive(procs[..n]);
      if g: nat :| g < n && !procs[g].pc.Done? {
        assert procs[..n][g] == procs[g];
      }
    }
  }

  /** t is s after goroutine g moved on. */
  predicate Advances(s: State, t: State, g: nat) {
    g < |s.procs| == |t.procs| && t.procs == s.procs[g := t.procs[g]] && Rank(t.procs[g].pc) < Rank(s.procs[g].pc)
  }

  lemma EnterAdvances(s: State, g: nat)
    requires InRange(s) && g < |s.procs|
    requires var pc := s.procs[g].pc; pc.MapLock? || pc.MapFind? || pc.MapCount? || pc.MapUnlock? || pc.MuLock?
    ensures Advances(s, Enter(s, g), g)
  {
  }

  lemma LeaveAdvances(s: State, g: nat)
    requires InRange(s) && g < |s.procs|
    requires var pc := s.procs[g].pc; pc.MuUnlock? || pc.ExitMapLock? || pc.ExitDrop? || pc.ExitMapUnlock?
    ensures Advances(s, Leave(s, g), g)
  {
  }

  lemma CriticalAdvances(s: State, g: nat, ok: bool)
    requires g < |s.procs| && s.procs[g].call.Confirm?
    requires var pc := s.procs[g].pc; pc.ReadStatus? || pc.CheckSession? || pc.Import? || pc.MarkAccepted?
    ensures Advances(s, Critical(s, g, ok), g)
  {
  }

  lemma UnlockedAdvances(s: State, g: nat, ok: bool)
    requires g < |s.procs|
    requires var pc := s.procs[g].pc; pc.AcceptRead? || pc.AcceptMint? || pc.DeclineRead? || pc.DeclineSave?
    ensures Advances(s, Unlocked(s, g, ok), g)
  {
  }

  lemma StepAdvances(s: State, g: nat, ok: bool)
    requires InRange(s) && Enabled(s, Step(g, ok))
    ensures Advances(s, Apply(s, Step(g, ok)), g)
  {
    var pc := s.procs[g].pc;
    if pc.MapLock? || pc.MapFind? || pc.MapCount? || pc.MapUnlock? || pc.MuLock? {
      EnterAdvances(s, g);
    } else if pc.MuUnlock? || pc.ExitMapLock? || pc.ExitDrop? || pc.ExitMapUnlock? {
      LeaveAdvances(s, g);
    } else if pc.ReadStatus? || pc.CheckSession? || pc.Import? || pc.MarkAccepted? {
      CriticalAdvances(s, g, ok);
    } else {
      UnlockedAdvances(s, g, ok);
    }
  }

  lemma StepWorks(s: State, g: nat, ok: bool)
    requires InRange(s) && Enabled(s, Step(g, ok))
    ensures Work(Apply(s, Step(g, ok)).procs) < Work(s.procs)
  {
    StepAdvances(s, g, ok);
    WorkUpdate(s.procs, g, Apply(s, Step(g, ok)).procs[g]);
  }

  /** No reachable state is stuck: while a goroutine is unfinished, some goroutine can take its next step. */
  lemma NeverStuck(s: State) returns (g: nat)
    requires InRange(s) && MapHeld(s) && MuHeld(s) && exists h: nat :: h < |s.procs| && !s.procs[h].pc.Done?
    ensures g < |s.procs| && forall ok :: Enabled(s, Step(g, ok))
  {
    hide PcFits;
    if s.mapHolder.Some? {
      g := s.mapHolder.value;
    } else {
      var h: nat :| h < |s.procs| && !s.procs[h].pc.Done?;
      g := h;
      if s.procs[h].pc.MuLock? {
        assert LockOf(s.procs[h].pc) == Some(s.procs[h].pc.l);
        if s.locks[s.procs[h].pc.l].holder.Some? { g := s.locks[s.procs[h].pc.l].holder.value; }
      }
    }
  }

  ghost predicate OnlySteps(es: seq<Event>) {
    forall i :: 0 <= i < |es| ==> es[i].Step?
  }

  /** However the goroutines are scheduled, the calls already started take at most Work steps ... */
  lemma {:induction false} RunsAreBounded(s: State, es: seq<Event>, t: State)
    requires Inv(s) && Run(s, es, t) && OnlySteps(es)
    ensures |es| + Work(t.procs) <= Work(s.procs)
    decreases |es|
  {
    if es != [] {
      var u := Apply(s, es[0]);
      StepWorks(s, es[0].g, es[0].ok);
      StepKeepsLockInv(s, es[0]);
      StepKeepsImportInv(s, es[0]);
      RunsAreBounded(u, es[1..], t);
    }
  }

  /** ... and they can always be run to completion, which leaves the lock map empty. */
  lemma {:induction false} AllCallsFinish(s: State) returns (es: seq<Event>, t: State)
    requires Inv(s)
    ensures Run(s, es, t) && OnlySteps(es) && Inv(t) && t.m == map[] && t.mapHolder == None
    ensures forall g: nat :: g < |t.procs| ==> t.procs[g].pc.Done?
    decreases Work(s.procs)
  {
    hide MapHeld, MuHeld, RefsCounted, Attached, EntriesUsed, ImportInv;
    if g: nat :| g < |s.procs| && !s.procs[g].pc.Done? {
      var h := NeverStuck(s);
      StepWorks(s, h, true);
      StepKeepsLockInv(s, Step(h, true));
      StepKeepsImportInv(s, Step(h, true));
      var rest;
      rest, t := AllCallsFinish(Apply(s, Step(h, true)));
      es := [Step(h, true)] + rest;
      assert es[1..] == rest;
    } else {
      es, t := [], s;
      AllDoneMeansEmpty(s);
    }
  }

  /** When every goroutine is done, nobody holds the map mutex and the map is empty. */
  lemma AllDoneMeansEmpty(s: State)
    requires LockInv(s) && forall g: nat :: g < |s.procs| ==> s.procs[g].pc.Done?
    ensures s.m == map[] && s.mapHolder == None
  {
    forall id | id in s.m ensures false {
      assert EntryUsed(s, id);
      RefCountPositive(s.procs, s.m[id]);
    }
    assert s.m == map[];
  }

  // ----- Imports and sessions -----

  /** Sessions of a share that have been used in a given way. */
  function UsedAs(sessions: seq<Session>, id: ShareId, use: Use): nat {
    if sessions == [] then 0
    else
      var last := sessions[|sessions| - 1];
      UsedAs(sessions[..|sessions| - 1], id, use) + Bit(last.share == id && last.use == use)
  }

  lemma {:induction false} UsedAsUpdate(sessions: seq<Session>, k: nat, x: Session, id: ShareId, use: Use)
    requires k < |sessions|
    ensures UsedAs(sessions[k := x], id, use)
         == UsedAs(sessions, id, use) - Bit(sessions[k].share == id && sessions[k].use == use)
             + Bit(x.share == id && x.use == use)
  {
    var n := |sessions| - 1;
    if k == n {
      assert sessions[k := x][..n] == sessions[..n];
    } else {
      assert sessions[k := x][..n] == sessions[..n][k := x];
      UsedAsUpdate(sessions[..n], k, x, id, use);
    }
  }

  lemma {:induction false} UsedAsPositive(sessions: seq<Session>, k: nat)
    requires k < |sessions|
    ensures UsedAs(sessions, sessions[k].share, sessions[k].use) > 0
  {
    if k < |sessions| - 1 { UsedAsPositive(sessions[..|sessions| - 1], k); }
  }

  /** Every import has used up a session of the share, and every used session has imported it; only the result of a
      direct import is ever replayed. */
  ghost predicate Counted(s: State, id: ShareId) {
    var t := s.TallyOf(id);
    && |t.receipts| == UsedAs(s.sessions, id, ByShare)
    && t.direct == UsedAs(s.sessions, id, Directly)
    && (t.replays > 0 ==> t.direct > 0)
  }

  lemma SessionUpdateKeepsCounted(s: State, t: State, k: nat, x: Session, id: ShareId)
    requires Counted(s, id) && k < |s.sessions| && x.share == s.sessions[k].share && t.sessions == s.sessions[k := x]
    requires s.sessions[k].use == x.use || s.sessions[k].use.Unused?
    requires var more := s.sessions[k].share == id && s.sessions[k].use != x.use;
      && |t.TallyOf(id).receipts| == |s.TallyOf(id).receipts| + Bit(more && x.use.ByShare?)
      && t.TallyOf(id).direct == s.TallyOf(id).direct + Bit(more && x.use.Directly?)
      && t.TallyOf(id).replays == s.TallyOf(id).replays
    ensures Counted(t, id)
  {
    UsedAsUpdate(s.sessions, k, x, id, ByShare);
    UsedAsUpdate(s.sessions, k, x, id, Directly);
  }

  lemma CriticalKeepsCounted(s: State, g: nat, ok: bool, id: ShareId)
    requires Counted(s, id) && g < |s.procs| && ProcInv(s, s.procs[g]) && s.procs[g].call.Confirm?
    requires var pc := s.procs[g].pc; pc.ReadStatus? || pc.CheckSession? || pc.Import? || pc.MarkAccepted?
    ensures Counted(Critical(s, g, ok), id)
  {
    hide RefOf, MuOf, LockOf, PcFits;
    var t, k := Critical(s, g, ok), s.procs[g].call.session;
    if s.procs[g].pc.Import? && ok && k < |s.sessions| && s.sessions[k].kept {
      if s.sessions[k].use.Unused? {
        SessionUpdateKeepsCounted(s, t, k, s.sessions[k].(use := ByShare), id);
      } else {
        UsedAsPositive(s.sessions, k);
      }
    }
  }

  lemma UnlockedKeepsCounted(s: State, g: nat, ok: bool, id: ShareId)
    requires Counted(s, id) && g < |s.procs|
    requires var pc := s.procs[g].pc; pc.AcceptRead? || pc.AcceptMint? || pc.DeclineRead? || pc.DeclineSave?
    ensures Counted(Unlocked(s, g, ok), id)
  {
    var x := Session(s.procs[g].call.share, s.procs[g].call.user, Unused, true);
    assert (s.sessions + [x])[..|s.sessions|] == s.sessions;
  }

  lemma StepKeepsCounted(s: State, e: Event, id: ShareId)
    requires InRange(s) && ImportInv(s) && Enabled(s, e) && Counted(s, id)
    ensures Counted(Apply(s, e), id)
  {
    hide Enter, Leave, Critical, Unlocked, ProcInv, ShareInv, UsedAs;
    if e.Step? {
      var pc := s.procs[e.g].pc;
      if pc.ReadStatus? || pc.CheckSession? || pc.Import? || pc.MarkAccepted? {
        CriticalKeepsCounted(s, e.g, e.ok, id);
      } else if pc.AcceptRead? || pc.AcceptMint? || pc.DeclineRead? || pc.DeclineSave? {
        UnlockedKeepsCounted(s, e.g, e.ok, id);
      } else {
        LockSectionChangesNothing(s, Apply(s, e), e.g, id);
      }
    } else if e.Expire? && e.session < |s.sessions| {
      SessionUpdateKeepsCounted(s, Apply(s, e), e.session, s.sessions[e.session].(kept := false), id);
    } else if e.ConfirmDirectly? && e.session < |s.sessions| && s.sessions[e.session].Live() {
      SessionUpdateKeepsCounted(s, Apply(s, e), e.session, s.sessions[e.session].(use := Directly), id);
    }
  }

  lemma {:induction false} RunKeepsCounted(s: State, es: seq<Event>, t: State, id: ShareId)
    requires Inv(s) && Counted(s, id) && Run(s, es, t)
    ensures Counted(t, id)
    decreases |es|
  {
    hide Apply, Enabled, Inv, Counted;
    if es != [] {
      InvParts(s);
      StepKeepsCounted(s, es[0], id);
      StepKeepsInv(s, es[0]);
      RunKeepsCounted(Apply(s, es[0]), es[1..], t, id);
    }
  }

  lemma InvParts(s: State)
    requires Inv(s)
    ensures InRange(s) && ImportInv(s)
  {
  }

  /** What no step does to a session the manager no longer keeps: bring it back, or import it. */
  lemma GoneStaysGone(s: State, e: Event, k: nat)
    requires InRange(s) && Enabled(s, e) && k < |s.sessions| && !s.sessions[k].kept
    ensures k < |Apply(s, e).sessions| && Apply(s, e).sessions[k] == s.sessions[k]
  {
    hide Enter, Leave, Critical, Unlocked;
    if e.Step? {
      var pc := s.procs[e.g].pc;
      if pc.ReadStatus? || pc.CheckSession? || pc.Import? || pc.MarkAccepted? {
        CriticalLeavesGone(s, e.g, e.ok, k);
      } else if pc.AcceptRead? || pc.AcceptMint? || pc.DeclineRead? || pc.DeclineSave? {
        UnlockedLeavesGone(s, e.g, e.ok, k);
      } else {
        LockSectionChangesNothing(s, Apply(s, e), e.g, "");
      }
    }
  }

  lemma CriticalLeavesGone(s: State, g: nat, ok: bool, k: nat)
    requires g < |s.procs| && s.procs[g].call.Confirm? && k < |s.sessions| && !s.sessions[k].kept
    requires var pc := s.procs[g].pc; pc.ReadStatus? || pc.CheckSession? || pc.Import? || pc.MarkAccepted?
    ensures k < |Critical(s, g, ok).sessions| && Critical(s, g, ok).sessions[k] == s.sessions[k]
  {
  }

  lemma UnlockedLeavesGone(s: State, g: nat, ok: bool, k: nat)
    requires g < |s.procs| && k < |s.sessions|
    requires var pc := s.procs[g].pc; pc.AcceptRead? || pc.AcceptMint? || pc.DeclineRead? || pc.DeclineSave?
    ensures k < |Unlocked(s, g, ok).sessions| && Unlocked(s, g, ok).sessions[k] == s.sessions[k]
  {
  }

  lemma {:induction false} RunKeepsGone(s: State, es: seq<Event>, t: State, k: nat)
    requires Run(s, es, t) && k < |s.sessions| && !s.sessions[k].kept
    ensures k < |t.sessions| && t.sessions[k] == s.sessions[k]
    decreases |es|
  {
    hide Apply, Enabled, InRange;
    if es != [] {
      GoneStaysGone(s, es[0], k);
      RunKeepsGone(Apply(s, es[0]), es[1..], t, k);
    }
  }

  /** An expired session is never imported again, through either endpoint, whatever runs. */
  lemma ExpiredIsNeverImported(s: State, k: nat, es: seq<Event>, t: State)
    requires InRange(s) && k < |s.sessions| && Run(Apply(s, Expire(k)), es, t)
    ensures k < |t.sessions| && t.sessions[k] == s.sessions[k].(kept := false)
  {
    RunKeepsGone(Apply(s, Expire(k)), es, t, k);
  }

  /** Through either endpoint, in whatever order: the payload has been imported exactly as often as sessions of the
      share have been used up, so no session ever imports it twice; and if the ordinary endpoint was never given one of
      them, every confirm that reached its UPDATE had imported. */
  lemma ImportsAreSessionsUsed(s: State, id: ShareId)
    requires Reachable(s)
    ensures s.TallyOf(id).Imports() == UsedAs(s.sessions, id, ByShare) + UsedAs(s.sessions, id, Directly)
    ensures s.TallyOf(id).direct == 0 ==> s.TallyOf(id).Confirms() == |s.TallyOf(id).receipts|
  {
    hide Inv, Apply, Enabled;
    var es :| Run(Init(), es, s);
    RunKeepsInv(Init(), es, s) by { StartsValid(); }
    RunKeepsCounted(Init(), es, s, id) by { StartsValid(); }
  }

  lemma StartsValid()
    ensures Inv(Init())
  {
  }

  // ----- A confirm that is left alone -----

  lemma {:induction false} RunConcat(s: State, es: seq<Event>, t: State, fs: seq<Event>, u: State)
    requires Run(s, es, t) && Run(t, fs, u)
    ensures Run(s, es + fs, u)
    decreases |es|
  {
    if es == [] {
      assert es + fs == fs;
    } else {
      RunConcat(Apply(s, es[0]), es[1..], t, fs, u);
      assert (es + fs)[0] == es[0] && (es + fs)[1..] == es[1..] + fs;
    }
  }

  lemma RunSnoc(s: State, es: seq<Event>, t: State, e: Event)
    requires Run(s, es, t) && InRange(t) && Enabled(t, e)
    ensures Run(s, es + [e], Apply(t, e))
  {
    assert [e][1..] == [];
    assert Run(Apply(t, e), [e][1..], Apply(t, e));
    RunConcat(s, es, t, [e], Apply(t, e));
  }

  lemma StaysPut(s: State)
    ensures LeadsTo(s, s)
  {
    assert Run(s, [], s);
  }

  /** Extends a run by one event. */
  lemma Then(s: State, t: State, e: Event) returns (u: State)
    requires Reachable(s) && LeadsTo(s, t) && InRange(t) && Enabled(t, e)
    ensures u == Apply(t, e) && LeadsTo(s, u) && InRange(u)
  {
    var es :| Run(s, es, t);
    RunSnoc(s, es, t, e);
    ReachableInv(s);
    RunKeepsInv(s, es + [e], Apply(t, e));
    u := Apply(t, e);
  }

  /** t is s after goroutine g has moved to pc, having touched neither rows, sessions nor tallies. */
  ghost predicate Silent(s: State, t: State, g: nat, pc: Pc) {
    && g < |s.procs| && t.procs == s.procs[g := s.procs[g].(pc := pc)]
    && t.shares == s.shares && t.sessions == s.sessions && t.tallies == s.tallies
  }

  lemma RegisterAlone(s0: State, s: State, g: nat) returns (t: State)
    requires Reachable(s0) && LeadsTo(s0, s) && InRange(s) && g < |s.procs| && s.procs[g].pc == MapLock
    requires s.mapHolder == None && s.procs[g].call.share !in s.m
    ensures LeadsTo(s0, t) && InRange(t) && Silent(s, t, g, MapUnlock(|s.locks|))
    ensures t.mapHolder == Some(g) && t.m == s.m[s.procs[g].call.share := |s.locks|]
    ensures |t.locks| == |s.locks| + 1 && t.locks[|s.locks|] == Lock(s.procs[g].call.share, None, 1)
  {
    hide Reachable, LeadsTo, Leave, Critical, Unlocked, PcFits;
    t := Then(s0, s, Step(g, true));
    assert t.procs[g].pc == MapFind;
    t := Then(s0, t, Step(g, true));
    assert t.procs[g].pc == MapCount(|s.locks|);
    t := Then(s0, t, Step(g, true));
  }

  /** A confirm whose share no other goroutine is confirming takes the lock unhindered. */
  lemma EnterAlone(s0: State, s: State, g: nat) returns (t: State)
    requires Reachable(s0) && LeadsTo(s0, s) && InRange(s) && g < |s.procs| && s.procs[g].pc == MapLock
    requires s.mapHolder == None && s.procs[g].call.share !in s.m
    ensures LeadsTo(s0, t) && InRange(t) && Silent(s, t, g, ReadStatus(|s.locks|))
    ensures t.mapHolder == None && t.m == s.m[s.procs[g].call.share := |s.locks|]
    ensures |t.locks| == |s.locks| + 1 && t.locks[|s.locks|] == Lock(s.procs[g].call.share, Some(g), 1)
  {
    hide Reachable, LeadsTo;
    t := RegisterAlone(s0, s, g);
    t := Then(s0, t, Step(g, true));
    assert t.procs[g].pc == MuLock(|s.locks|);
    t := Then(s0, t, Step(g, true));
  }

  lemma ReleaseAlone(s0: State, s: State, g: nat, l: nat) returns (t: State)
    requires Reachable(s0) && LeadsTo(s0, s) && InRange(s) && g < |s.procs| && s.procs[g].pc == MuUnlock(l)
    requires s.mapHolder == None && l < |s.locks| && s.locks[l].refs == 1
    ensures LeadsTo(s0, t) && InRange(t) && Silent(s, t, g, ExitDrop(l))
    ensures t.mapHolder == Some(g) && t.m == s.m && l < |t.locks| && t.locks[l].refs == 1
  {
    hide Reachable, LeadsTo, Enter, Critical, Unlocked, PcFits;
    t := Then(s0, s, Step(g, true));
    assert t.procs[g].pc == ExitMapLock(l);
    t := Then(s0, t, Step(g, true));
  }

  lemma LeaveAlone(s0: State, s: State, g: nat, l: nat) returns (t: State)
    requires Reachable(s0) && LeadsTo(s0, s) && InRange(s) && g < |s.procs| && s.procs[g].pc == MuUnlock(l)
    requires s.mapHolder == None && l < |s.locks| && s.locks[l].refs == 1
    ensures LeadsTo(s0, t) && InRange(t) && Silent(s, t, g, Done)
    ensures t.mapHolder == None && t.m == s.m - {s.procs[g].call.share}
  {
    hide Reachable, LeadsTo, Enter, Critical, Unlocked, PcFits;
    t := ReleaseAlone(s0, s, g, l);
    t := Then(s0, t, Step(g, true));
    assert t.procs[g].pc == ExitMapUnlock;
    t := Then(s0, t, Step(g, true));
  }

  /** The row as the recipient of a share finds it before answering. */
  predicate PendingFor(s: State, id: ShareId, user: UserId) {
    id in s.shares && s.shares[id] == Share(user, Pending)
  }

  /** The call can land its session: the share is pending for its user, and the session was minted for both. */
  predicate CanConfirm(s: State, c: Call) {
    && c.Confirm?
    && PendingFor(s, c.share, c.user)
    && c.session < |s.sessions| && s.sessions[c.session] == Session(c.share, c.user, Unused, true)
  }

  /** The state after the call has imported and its UPDATE has succeeded or failed. */
  function Confirmed(s: State, c: Call, marked: bool): State
    requires CanConfirm(s, c)
  {
    var t := s.TallyOf(c.share);
    s.(shares := if marked then s.shares[c.share := Share(c.user, Accepted)] else s.shares,
       sessions := s.sessions[c.session := Session(c.share, c.user, ByShare, true)],
       tallies := s.tallies[c.share :=
         t.(receipts := t.receipts + [Receipt(c.session, c.user)],
            failedMarks := t.failedMarks + (if marked then 0 else 1))])
  }

  lemma ReadAlone(s0: State, s: State, g: nat, l: nat) returns (t: State)
    requires Reachable(s0) && LeadsTo(s0, s) && InRange(s) && g < |s.procs| && s.procs[g].pc == ReadStatus(l)
    requires CanConfirm(s, s.procs[g].call)
    ensures LeadsTo(s0, t) && InRange(t) && t == s.Goto(g, Import(l))
  {
    hide Reachable, LeadsTo;
    t := Then(s0, s, Step(g, true));
    assert t.procs[g].pc == CheckSession(l);
    t := Then(s0, t, Step(g, true));
  }

  lemma ImportAlone(s0: State, s: State, g: nat, l: nat) returns (t: State)
    requires Reachable(s0) && LeadsTo(s0, s) && InRange(s) && g < |s.procs| && s.procs[g].pc == Import(l)
    requires CanConfirm(s, s.procs[g].call)
    ensures LeadsTo(s0, t) && InRange(t)
    ensures var c := s.procs[g].call; var r := s.TallyOf(c.share).receipts + [Receipt(c.session, c.user)];
      t == s.(sessions := s.sessions[c.session := Session(c.share, c.user, ByShare, true)],
              tallies := s.tallies[c.share := s.TallyOf(c.share).(receipts := r)]).Goto(g, MarkAccepted(l))
  {
    hide Reachable, LeadsTo;
    t := Then(s0, s, Step(g, true));
  }

  lemma CriticalAlone(s0: State, s: State, g: nat, l: nat, marked: bool) returns (t: State)
    requires Reachable(s0) && LeadsTo(s0, s) && InRange(s) && g < |s.procs| && s.procs[g].pc == ReadStatus(l)
    requires CanConfirm(s, s.procs[g].call)
    ensures LeadsTo(s0, t) && InRange(t) && t == Confirmed(s, s.procs[g].call, marked).Goto(g, MuUnlock(l))
  {
    hide Reachable, LeadsTo, Enter, Leave, Unlocked, PcFits;
    t := ReadAlone(s0, s, g, l);
    t := ImportAlone(s0, t, g, l);
    t := Then(s0, t, Step(g, marked));
  }

  lemma ConfirmStartedAlone(s0: State, s: State, g: nat, marked: bool) returns (t: State)
    requires Reachable(s0) && LeadsTo(s0, s) && InRange(s) && g < |s.procs| && s.procs[g].pc == MapLock
    requires s.mapHolder == None && s.procs[g].call.share !in s.m && CanConfirm(s, s.procs[g].call)
    ensures LeadsTo(s0, t) && t.mapHolder == None && t.m == s.m && t.procs == s.procs[g := s.procs[g].(pc := Done)]
    ensures var u := Confirmed(s, s.procs[g].call, marked);
      t.shares == u.shares && t.sessions == u.sessions && t.tallies == u.tallies
  {
    hide Reachable, LeadsTo;
    t := EnterAlone(s0, s, g);
    t := CriticalAlone(s0, t, g, |s.locks|, marked);
    t := LeaveAlone(s0, t, g, |s.locks|);
  }

  /** A still-pending share can be (re)tried: a new confirm with a live session of that share, if no other
      goroutine is confirming it, imports the payload, marks the share accepted and leaves no lock behind. */
  lemma ConfirmAlone(s: State, c: Call, marked: bool) returns (t: State)
    requires Reachable(s) && s.mapHolder == None && c.share !in s.m && CanConfirm(s, c)
    ensures LeadsTo(s, t) && t.mapHolder == None && t.m == s.m && t.procs == s.procs + [Proc(c, Done)]
    ensures var u := Confirmed(s, c, marked); t.shares == u.shares && t.sessions == u.sessions && t.tallies == u.tallies
  {
    hide Reachable, LeadsTo;
    assert InRange(s) by { ReachableInv(s); }
    StaysPut(s);
    t := Then(s, s, Start(c));
    t := ConfirmStartedAlone(s, t, |s.procs|, marked);
  }

  lemma ReachableThen(s: State, t: State)
    requires Reachable(s) && LeadsTo(s, t)
    ensures Reachable(t)
  {
    var es :| Run(Init(), es, s);
    var fs :| Run(s, fs, t);
    RunConcat(Init(), es, s, fs, t);
  }

  /** A run of three events. */
  lemma RunThree(s: State, a: Event, b: Event, c: Event, t: State, u: State, v: State)
    requires InRange(s) && Enabled(s, a) && t == Apply(s, a)
    requires InRange(t) && Enabled(t, b) && u == Apply(t, b)
    requires InRange(u) && Enabled(u, c) && v == Apply(u, c)
    ensures Run(s, [a, b, c], v)
  {
    hide Apply, Enabled, InRange;
    var es := [a, b, c];
    assert es[1..][1..] == [c] && [c][1..] == [];
    assert Run(u, [c], v) && Run(t, es[1..], v);
  }

  /** The events of a call that is started and takes its two steps without a fault. */
  function TwoSteps(s: State, c: Call): seq<Event> {
    [Start(c), Step(|s.procs|, true), Step(|s.procs|, true)]
  }

  /** An accept that is left alone mints a session for a pending share and changes nothing else. */
  lemma AcceptAlone(s: State, id: ShareId, user: UserId) returns (t: State)
    requires Reachable(s) && PendingFor(s, id, user)
    ensures LeadsTo(s, t) && Run(s, TwoSteps(s, Accept(id, user)), t)
    ensures t == s.(sessions := s.sessions + [Session(id, user, Unused, true)],
      procs := s.procs + [Proc(Accept(id, user), Done)])
  {
    hide Reachable, LeadsTo;
    assert InRange(s) by { ReachableInv(s); }
    StaysPut(s);
    var g := |s.procs|;
    var s1 := Then(s, s, Start(Accept(id, user)));
    var s2 := Then(s, s1, Step(g, true));
    assert s2.procs[g].pc == AcceptMint;
    t := Then(s, s2, Step(g, true));
    RunThree(s, Start(Accept(id, user)), Step(g, true), Step(g, true), s1, s2, t);
  }

  /** The second steps of an accept and of a decline do not look at the row again: whatever has happened since the
      first, they mint and save. */
  lemma SecondStepsAreUnconditional(s: State, g: nat)
    requires InRange(s) && g < |s.procs|
    ensures var c := s.procs[g].call;
      var minted := s.(sessions := s.sessions + [Session(c.share, c.user, Unused, true)],
                       procs := s.procs[g := Proc(c, Done)]);
      s.procs[g].pc.AcceptMint? ==> Apply(s, Step(g, true)) == minted
    ensures var c, t := s.procs[g].call, s.TallyOf(s.procs[g].call.share);
      var saved := s.(shares := s.shares[c.share := Share(c.user, Declined)],
                      tallies := s.tallies[c.share := t.(declines := t.declines + 1)],
                      procs := s.procs[g := Proc(c, Done)]);
      s.procs[g].pc.DeclineSave? ==> Apply(s, Step(g, true)) == saved
  {
  }

  /** What happens outside the three handlers touches nothing else: a share is created, a session expires, and a live
      session is imported directly, whatever its share has come to. */
  lemma OtherEvents(s: State, id: ShareId, user: UserId, k: nat)
    requires InRange(s)
    ensures id !in s.shares ==> Apply(s, Create(id, user)) == s.(shares := s.shares[id := Share(user, Pending)])
    ensures k >= |s.sessions| ==> Apply(s, Expire(k)) == Apply(s, ConfirmDirectly(k)) == s
    ensures k < |s.sessions| ==>
      var x, t := s.sessions[k], s.TallyOf(s.sessions[k].share);
      var imported := s.(sessions := s.sessions[k := x.(use := Directly)],
                         tallies := s.tallies[x.share := t.(direct := t.direct + 1)]);
      && Apply(s, Expire(k)) == s.(sessions := s.sessions[k := x.(kept := false)])
      && Apply(s, ConfirmDirectly(k)) == if x.use == Unused && x.kept then imported else s
  {
  }

  /** A decline that is left alone leaves a pending share declined and changes nothing else. */
  lemma DeclineAlone(s: State, id: ShareId, user: UserId) returns (t: State)
    requires Reachable(s) && PendingFor(s, id, user)
    ensures LeadsTo(s, t) && Run(s, TwoSteps(s, Decline(id, user)), t)
    ensures t == s.(shares := s.shares[id := Share(user, Declined)],
      tallies := s.tallies[id := s.TallyOf(id).(declines := s.TallyOf(id).declines + 1)],
      procs := s.procs + [Proc(Decline(id, user), Done)])
  {
    hide Reachable, LeadsTo;
    assert InRange(s) by { ReachableInv(s); }
    StaysPut(s);
    var g := |s.procs|;
    var s1 := Then(s, s, Start(Decline(id, user)));
    var s2 := Then(s, s1, Step(g, true));
    assert s2.procs[g].pc == DeclineSave;
    t := Then(s, s2, Step(g, true));
    RunThree(s, Start(Decline(id, user)), Step(g, true), Step(g, true), s1, s2, t);
  }

  /** The state right after one share has been created on an empty server. */
  lemma FreshShare(id: ShareId, user: UserId) returns (s: State)
    ensures Reachable(s) && s == Init().(shares := map[id := Share(user, Pending)])
  {
    assert Run(Init(), [], Init());
    s := Then(Init(), Init(), Create(id, user));
  }

  /** A pending share whose UPDATE has failed n times after n imports. */
  lemma {:induction false} ImportedAndStillPending(id: ShareId, user: UserId, n: nat) returns (s: State)
    ensures Reachable(s) && PendingFor(s, id, user) && s.mapHolder == None && id !in s.m
    ensures |s.TallyOf(id).receipts| == n == s.TallyOf(id).failedMarks
  {
    hide Reachable, LeadsTo, Run;
    if n == 0 {
      s := FreshShare(id, user);
    } else {
      var before := ImportedAndStillPending(id, user, n - 1);
      var accepted := AcceptAlone(before, id, user);
      ReachableThen(before, accepted);
      s := ConfirmAlone(accepted, Confirm(id, user, |before.sessions|), false);
      ReachableThen(accepted, s);
    }
  }

  /** The bound on imports is attained for every number of failed UPDATEs: n failures, n + 1 imports. */
  lemma ImportsUpToTheBound(id: ShareId, user: UserId, n: nat) returns (s: State)
    ensures Reachable(s) && |s.TallyOf(id).receipts| == n + 1 && s.TallyOf(id).failedMarks == n
  {
    hide Reachable, LeadsTo, Run;
    var before := ImportedAndStillPending(id, user, n);
    var accepted := AcceptAlone(before, id, user);
    ReachableThen(before, accepted);
    s := ConfirmAlone(accepted, Confirm(id, user, |before.sessions|), true);
    ReachableThen(accepted, s);
  }

  /** A direct import leaves the share pending, with nothing but a used session to show for it. */
  lemma {:induction false} ImportedDirectlyAndPending(id: ShareId, user: UserId, n: nat) returns (s: State)
    ensures Reachable(s) && PendingFor(s, id, user) && s.mapHolder == None && id !in s.m
    ensures s.TallyOf(id) == NOTHING.(direct := n)
  {
    hide Reachable, LeadsTo, Run, Inv;
    if n == 0 {
      s := FreshShare(id, user);
    } else {
      var before := ImportedDirectlyAndPending(id, user, n - 1);
      var accepted := AcceptAlone(before, id, user);
      ReachableThen(before, accepted);
      ReachableInRange(accepted);
      StaysPut(accepted);
      s := Then(accepted, accepted, ConfirmDirectly(|before.sessions|));
      ReachableThen(accepted, s);
    }
  }

  /** The bound is one on confirms of the share.  Through the ordinary endpoint the payload can be imported any number
      of times, and then once more through the share, with no UPDATE failing. */
  lemma DirectImportsHaveNoBound(id: ShareId, user: UserId, n: nat) returns (s: State)
    ensures Reachable(s) && s.TallyOf(id).Imports() == n + 1 && s.TallyOf(id).failedMarks == 0
    ensures id in s.shares && s.shares[id].status == Accepted
  {
    hide Reachable, LeadsTo, Run;
    var before := ImportedDirectlyAndPending(id, user, n);
    var accepted := AcceptAlone(before, id, user);
    ReachableThen(before, accepted);
    s := ConfirmAlone(accepted, Confirm(id, user, |before.sessions|), true);
    ReachableThen(accepted, s);
  }

  /** Between a confirm's session check and its import the ordinary endpoint can import in its place: the confirm then
      replays that result and marks the share accepted. */
  lemma ReplayAccepts(id: ShareId, user: UserId) returns (s: State)
    ensures Reachable(s) && id in s.shares && s.shares[id].status == Accepted
    ensures s.TallyOf(id) == Tally([], 1, 1, 0, 0)
  {
    hide Reachable, LeadsTo, Run, Inv;
    var s0 := FreshShare(id, user);
    var s1 := AcceptAlone(s0, id, user);
    ReachableThen(s0, s1);
    ReachableInRange(s1);
    StaysPut(s1);
    var c, g := Confirm(id, user, 0), |s1.procs|;
    var s2 := Then(s1, s1, Start(c));
    s2 := EnterAlone(s1, s2, g);
    s2 := ReadAlone(s1, s2, g, 0);
    s := ReplayAlone(s1, s2, g, 0);
    ReachableThen(s1, s);
  }

  lemma ReplayAlone(s0: State, s: State, g: nat, l: nat) returns (t: State)
    requires Reachable(s0) && LeadsTo(s0, s) && InRange(s) && g < |s.procs| && s.procs[g].pc == Import(l)
    requires CanConfirm(s, s.procs[g].call) && s.TallyOf(s.procs[g].call.share) == NOTHING
    ensures LeadsTo(s0, t)
    ensures var id := s.procs[g].call.share;
      id in t.shares && t.shares[id].status == Accepted && t.TallyOf(id) == Tally([], 1, 1, 0, 0)
  {
    hide Reachable, LeadsTo, Run, Inv;
    t := Then(s0, s, ConfirmDirectly(s.procs[g].call.session));
    t := Then(s0, t, Step(g, true));
    assert t.procs[g].pc == MarkAccepted(l);
    t := Then(s0, t, Step(g, true));
  }

  /** The guarantee needs the UPDATE: if the one after the first import fails, a second import goes through. */
  lemma FailedMarkAllowsSecondImport(id: ShareId, user: UserId) returns (s: State)
    ensures Reachable(s) && |s.TallyOf(id).receipts| == 2 && s.TallyOf(id).failedMarks == 1
  {
    s := ImportsUpToTheBound(id, user, 1);
  }

  /** Decline takes no lock and saves the copy it read.  So from every reachable state in which a decline waits to save
      and a confirm of the same share can go through, some run leaves the share imported and yet declined. */
  lemma StaleSaveOverwrites(s: State, g: nat, c: Call) returns (t: State)
    requires Reachable(s) && g < |s.procs| && s.procs[g].pc.DeclineSave? && s.procs[g].call.share == c.share
    requires s.mapHolder == None && c.share !in s.m && CanConfirm(s, c)
    ensures LeadsTo(s, t) && Both(t, c.share) && c.share in t.shares && t.shares[c.share].status == Declined
    ensures |t.TallyOf(c.share).receipts| > 0
    ensures t.TallyOf(c.share).failedMarks == s.TallyOf(c.share).failedMarks && t.m == s.m && t.mapHolder == None
    ensures t.procs == (s.procs + [Proc(c, Done)])[g := s.procs[g].(pc := Done)]
  {
    hide Reachable, LeadsTo, Inv;
    t := ConfirmAlone(s, c, true);
    ReachableThen(s, t);
    ReachableInRange(t);
    assert t.procs[g] == s.procs[g];
    t := Then(s, t, Step(g, true));
  }

  /** And such states are reachable: a share can end up imported and yet declined. */
  lemma DeclineCanOverwriteAccepted(id: ShareId, user: UserId) returns (s: State)
    ensures Reachable(s) && id in s.shares && s.shares[id].status == Declined
    ensures |s.TallyOf(id).receipts| > 0 && s.TallyOf(id).failedMarks == 0 && !Marking(s, id)
  {
    hide Reachable, LeadsTo, Inv;
    var s0 := FreshShare(id, user);
    var s1 := AcceptAlone(s0, id, user);
    ReachableThen(s0, s1);
    ReachableInRange(s1);
    StaysPut(s1);
    var s2 := Then(s1, s1, Start(Decline(id, user)));
    var s3 := Then(s1, s2, Step(1, true));
    ReachableThen(s1, s3);
    s := StaleSaveOverwrites(s3, 1, Confirm(id, user, 0));
    ReachableThen(s3, s);
  }
}
