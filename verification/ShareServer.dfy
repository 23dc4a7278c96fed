/** The handlers of ContactShare as the program runs them: each method is one atomic action of a goroutine, updates
    the server's fields in place and keeps the server valid; RunSchedule executes any interleaving of them, and
    ConfirmContactShare is one handler from end to end. */
module ShareServer {
  import opened Prelude
  import opened ContactShare

  class Server {
    var shares: map<ShareId, Share>
    var sessions: seq<Session>
    var m: map<ShareId, nat>
    var mapHolder: Option<nat>
    var locks: seq<Lock>
    var procs: seq<Proc>
    ghost var tallies: map<ShareId, Tally>

    ghost function Snapshot(): State
      reads this
    {
      State(shares, sessions, m, mapHolder, locks, procs, tallies)
    }

    /** The invariant that every run keeps. */
    ghost predicate Valid()
      reads this
    {
      Inv(Snapshot())
    }

    /** The action is possible now: nobody holds what it would wait for. */
    ghost predicate Can(e: Event)
      reads this
    {
      InRange(Snapshot()) && Enabled(Snapshot(), e)
    }

    constructor ()
      ensures Valid() && Snapshot() == Init()
    {
      shares, sessions, m, mapHolder, locks, procs, tallies := map[], [], map[], None, [], [], map[];
    }

    method Advance(g: nat, pc: Pc)
      requires g < |procs|
      modifies this`procs
      ensures procs == old(procs)[g := old(procs)[g].(pc := pc)]
    {
      procs := procs[g := procs[g].(pc := pc)];
    }

    /** CreateContactShare, once the row is built. */
    method CreateShare(id: ShareId, toUser: UserId)
      requires Valid() && Can(Create(id, toUser))
      modifies this
      ensures Valid() && Snapshot() == Apply(old(Snapshot()), Create(id, toUser))
    {
      hide MapHeld, MuHeld, RefsCounted, Attached, EntriesUsed, ImportInv;
      ghost var before := Snapshot();
      shares := shares[id := Share(toUser, Pending)];
      StepKeepsInv(before, Create(id, toUser));
    }

    /** CleanupExpired drops a session, or the record of its result. */
    method ExpireSession(k: nat)
      requires Valid() && Can(Expire(k))
      modifies this
      ensures Valid() && Snapshot() == Apply(old(Snapshot()), Expire(k))
    {
      hide MapHeld, MuHeld, RefsCounted, Attached, EntriesUsed, ImportInv;
      ghost var before := Snapshot();
      if k < |sessions| { sessions := sessions[k := sessions[k].(kept := false)]; }
      StepKeepsInv(before, Expire(k));
    }

    /** ConfirmVCFImport: the same import, with no look at the share the session is bound to. */
    method ConfirmImport(k: nat)
      requires Valid() && Can(ConfirmDirectly(k))
      modifies this
      ensures Valid() && Snapshot() == Apply(old(Snapshot()), ConfirmDirectly(k))
    {
      hide MapHeld, MuHeld, RefsCounted, Attached, EntriesUsed, ImportInv;
      ghost var before := Snapshot();
      if k < |sessions| && sessions[k].Live() {
        ghost var t := Snapshot().TallyOf(sessions[k].share);
        tallies := tallies[sessions[k].share := t.(direct := t.direct + 1)];
        sessions := sessions[k := sessions[k].(use := Directly)];
      }
      StepKeepsInv(before, ConfirmDirectly(k));
    }

    /** A request arrives and gets its goroutine. */
    method StartCall(c: Call) returns (g: nat)
      requires Valid() && Can(Start(c))
      modifies this`procs
      ensures Valid() && g == old(|procs|) && Snapshot() == Apply(old(Snapshot()), Start(c))
      ensures procs == old(procs) + [Proc(c, EntryPc(c))]
    {
      hide MapHeld, MuHeld, RefsCounted, Attached, EntriesUsed, ImportInv;
      ghost var before := Snapshot();
      g := |procs|;
      procs := procs + [Proc(c, EntryPc(c))];
      StepKeepsInv(before, Start(c));
    }

    /** shareConfirmLocks.Lock(), by lockShareConfirm or by the closure it returns. */
    method LockMap(g: nat)
      requires Valid() && Can(Step(g, true))
      requires procs[g].pc.MapLock? || procs[g].pc.ExitMapLock?
      modifies this
      ensures Valid() && Snapshot() == Apply(old(Snapshot()), Step(g, true))
    {
      hide MapHeld, MuHeld, RefsCounted, Attached, EntriesUsed, ImportInv;
      ghost var before := Snapshot();
      var pc := procs[g].pc;
      mapHolder := Some(g);
      Advance(g, if pc.MapLock? then MapFind else ExitDrop(pc.l));
      StepKeepsInv(before, Step(g, true));
    }

    /** Looks the share up in the map and stores a fresh lock if there is none. */
    method FindLock(g: nat)
      requires Valid() && Can(Step(g, true))
      requires procs[g].pc.MapFind?
      modifies this
      ensures Valid() && Snapshot() == Apply(old(Snapshot()), Step(g, true))
    {
      hide MapHeld, MuHeld, RefsCounted, Attached, EntriesUsed, ImportInv;
      ghost var before := Snapshot();
      var id := procs[g].call.share;
      var l := |locks|;
      if id in m {
        l := m[id];
      } else {
        locks := locks + [Lock(id, None, 0)];
        m := m[id := l];
      }
      Advance(g, MapCount(l));
      StepKeepsInv(before, Step(g, true));
    }

    /** l.refs++ */
    method CountRef(g: nat)
      requires Valid() && Can(Step(g, true))
      requires procs[g].pc.MapCount?
      modifies this
      ensures Valid() && Snapshot() == Apply(old(Snapshot()), Step(g, true))
    {
      hide MapHeld, MuHeld, RefsCounted, Attached, EntriesUsed, ImportInv;
      ghost var before := Snapshot();
      var l := procs[g].pc.l;
      assert LockOf(procs[g].pc) == Some(l);
      locks := locks[l := locks[l].(refs := locks[l].refs + 1)];
      Advance(g, MapUnlock(l));
      StepKeepsInv(before, Step(g, true));
    }

    /** shareConfirmLocks.Unlock(), on the way in and on the way out. */
    method UnlockMap(g: nat)
      requires Valid() && Can(Step(g, true))
      requires procs[g].pc.MapUnlock? || procs[g].pc.ExitMapUnlock?
      modifies this
      ensures Valid() && Snapshot() == Apply(old(Snapshot()), Step(g, true))
    {
      hide MapHeld, MuHeld, RefsCounted, Attached, EntriesUsed, ImportInv;
      ghost var before := Snapshot();
      var pc := procs[g].pc;
      mapHolder := None;
      Advance(g, if pc.MapUnlock? then MuLock(pc.l) else Done);
      StepKeepsInv(before, Step(g, true));
    }

    /** l.mu.Lock(), once it is free. */
    method LockMutex(g: nat)
      requires Valid() && Can(Step(g, true))
      requires procs[g].pc.MuLock?
      modifies this
      ensures Valid() && Snapshot() == Apply(old(Snapshot()), Step(g, true))
    {
      hide MapHeld, MuHeld, RefsCounted, Attached, EntriesUsed, ImportInv;
      ghost var before := Snapshot();
      var l := procs[g].pc.l;
      assert LockOf(procs[g].pc) == Some(l);
      locks := locks[l := locks[l].(holder := Some(g))];
      Advance(g, ReadStatus(l));
      StepKeepsInv(before, Step(g, true));
    }

    /** l.mu.Unlock() */
    method UnlockMutex(g: nat)
      requires Valid() && Can(Step(g, true))
      requires procs[g].pc.MuUnlock?
      modifies this
      ensures Valid() && Snapshot() == Apply(old(Snapshot()), Step(g, true))
    {
      hide MapHeld, MuHeld, RefsCounted, Attached, EntriesUsed, ImportInv;
      ghost var before := Snapshot();
      var l := procs[g].pc.l;
      assert LockOf(procs[g].pc) == Some(l);
      locks := locks[l := locks[l].(holder := None)];
      Advance(g, ExitMapLock(l));
      StepKeepsInv(before, Step(g, true));
    }

    /** l.refs--, and the entry goes with the last reference. */
    method DropRef(g: nat)
      requires Valid() && Can(Step(g, true))
      requires procs[g].pc.ExitDrop?
      modifies this
      ensures Valid() && Snapshot() == Apply(old(Snapshot()), Step(g, true))
    {
      hide MapHeld, MuHeld, RefsCounted, Attached, EntriesUsed, ImportInv;
      ghost var before := Snapshot();
      var id, l := procs[g].call.share, procs[g].pc.l;
      assert LockOf(procs[g].pc) == Some(l);
      locks := locks[l := locks[l].(refs := locks[l].refs - 1)];
      if locks[l].refs == 0 {
        m := m - {id};
      }
      Advance(g, ExitMapUnlock);
      StepKeepsInv(before, Step(g, true));
    }

    /** getPendingShareForRecipient. */
    method GetPending(c: Call, ok: bool) returns (found: bool)
      ensures found == Snapshot().ReadsPending(c, ok)
    {
      found := false;
      if ok && c.share in shares && shares[c.share].toUser == c.user {
        found := shares[c.share].status == Pending;
      }
    }

    /** The status read that opens each handler. */
    method Read(g: nat, ok: bool)
      requires Valid() && Can(Step(g, ok))
      requires procs[g].pc.ReadStatus? || procs[g].pc.AcceptRead? || procs[g].pc.DeclineRead?
      modifies this
      ensures Valid() && Snapshot() == Apply(old(Snapshot()), Step(g, ok))
    {
      hide MapHeld, MuHeld, RefsCounted, Attached, EntriesUsed, ImportInv;
      ghost var before := Snapshot();
      var p := procs[g];
      var pending := GetPending(p.call, ok);
      match p.pc {
        case ReadStatus(l) => Advance(g, if pending then CheckSession(l) else MuUnlock(l));
        case AcceptRead => Advance(g, if pending then AcceptMint else Done);
        case DeclineRead => Advance(g, if pending then DeclineSave else Done);
      }
      StepKeepsInv(before, Step(g, ok));
    }

    /** SessionBelongsToShare. */
    method CheckBinding(g: nat, ok: bool)
      requires Valid() && Can(Step(g, ok))
      requires procs[g].pc.CheckSession?
      modifies this
      ensures Valid() && Snapshot() == Apply(old(Snapshot()), Step(g, ok))
    {
      hide MapHeld, MuHeld, RefsCounted, Attached, EntriesUsed, ImportInv;
      ghost var before := Snapshot();
      var c, l := procs[g].call, procs[g].pc.l;
      var belongs := ok && c.session < |sessions| && sessions[c.session] == Session(c.share, c.user, Unused, true);
      Advance(g, if belongs then Import(l) else MuUnlock(l));
      StepKeepsInv(before, Step(g, ok));
    }

    /** ConfirmVCF: the import commits and consumes the session, or the result of an earlier one is replayed, or nothing
        happens. */
    method RunImport(g: nat, ok: bool)
      requires Valid() && Can(Step(g, ok))
      requires procs[g].pc.Import?
      modifies this
      ensures Valid() && Snapshot() == Apply(old(Snapshot()), Step(g, ok))
    {
      hide MapHeld, MuHeld, RefsCounted, Attached, EntriesUsed, ImportInv;
      ghost var before := Snapshot();
      var c, l := procs[g].call, procs[g].pc.l;
      ghost var t := Snapshot().TallyOf(c.share);
      if !ok || c.session >= |sessions| || !sessions[c.session].kept {
        Advance(g, MuUnlock(l));
      } else if !sessions[c.session].use.Unused? {
        tallies := tallies[c.share := t.(replays := t.replays + 1)];
        Advance(g, MarkAccepted(l));
      } else {
        sessions := sessions[c.session := sessions[c.session].(use := ByShare)];
        tallies := tallies[c.share := t.(receipts := t.receipts + [Receipt(c.session, c.user)])];
        Advance(g, MarkAccepted(l));
      }
      StepKeepsInv(before, Step(g, ok));
    }

    /** The conditional UPDATE to accepted; its failure is only logged. */
    method Mark(g: nat, ok: bool)
      requires Valid() && Can(Step(g, ok))
      requires procs[g].pc.MarkAccepted?
      modifies this
      ensures Valid() && Snapshot() == Apply(old(Snapshot()), Step(g, ok))
    {
      hide MapHeld, MuHeld, RefsCounted, Attached, EntriesUsed, ImportInv;
      ghost var before := Snapshot();
      var c, l := procs[g].call, procs[g].pc.l;
      if !ok {
        ghost var t := Snapshot().TallyOf(c.share);
        tallies := tallies[c.share := t.(failedMarks := t.failedMarks + 1)];
      } else if c.share in shares && shares[c.share].status == Pending {
        shares := shares[c.share := shares[c.share].(status := Accepted)];
      }
      Advance(g, MuUnlock(l));
      StepKeepsInv(before, Step(g, ok));
    }

    /** CreateVCFSessionForShare. */
    method Mint(g: nat, ok: bool)
      requires Valid() && Can(Step(g, ok))
      requires procs[g].pc.AcceptMint?
      modifies this
      ensures Valid() && Snapshot() == Apply(old(Snapshot()), Step(g, ok))
    {
      hide MapHeld, MuHeld, RefsCounted, Attached, EntriesUsed, ImportInv;
      ghost var before := Snapshot();
      var c := procs[g].call;
      if ok {
        sessions := sessions + [Session(c.share, c.user, Unused, true)];
      }
      Advance(g, Done);
      StepKeepsInv(before, Step(g, ok));
    }

    /** Decline's save of the copy it read. */
    method SaveDeclined(g: nat, ok: bool)
      requires Valid() && Can(Step(g, ok))
      requires procs[g].pc.DeclineSave?
      modifies this
      ensures Valid() && Snapshot() == Apply(old(Snapshot()), Step(g, ok))
    {
      hide MapHeld, MuHeld, RefsCounted, Attached, EntriesUsed, ImportInv;
      ghost var before := Snapshot();
      var c := procs[g].call;
      if ok {
        ghost var t := Snapshot().TallyOf(c.share);
        shares := shares[c.share := Share(c.user, Declined)];
        tallies := tallies[c.share := t.(declines := t.declines + 1)];
      }
      Advance(g, Done);
      StepKeepsInv(before, Step(g, ok));
    }

    /** The next atomic action of goroutine g. */
    method StepOf(g: nat, ok: bool)
      requires Valid() && Can(Step(g, ok))
      modifies this
      ensures Valid() && Snapshot() == Apply(old(Snapshot()), Step(g, ok))
    {
      hide MapHeld, MuHeld, RefsCounted, Attached, EntriesUsed, ImportInv, Unlocked, Enter, Critical, Leave;
      var pc := procs[g].pc;
      if pc.MapLock? || pc.ExitMapLock? {
        LockMap(g);
      } else if pc.MapFind? {
        FindLock(g);
      } else if pc.MapCount? {
        CountRef(g);
      } else if pc.MapUnlock? || pc.ExitMapUnlock? {
        UnlockMap(g);
      } else if pc.MuLock? {
        LockMutex(g);
      } else if pc.MuUnlock? {
        UnlockMutex(g);
      } else if pc.ExitDrop? {
        DropRef(g);
      } else if pc.CheckSession? {
        CheckBinding(g, ok);
      } else if pc.Import? {
        RunImport(g, ok);
      } else if pc.MarkAccepted? {
        Mark(g, ok);
      } else if pc.AcceptMint? {
        Mint(g, ok);
      } else if pc.DeclineSave? {
        SaveDeclined(g, ok);
      } else {
        Read(g, ok);
      }
    }

    method Do(e: Event)
      requires Valid() && Can(e)
      modifies this
      ensures Valid() && Snapshot() == Apply(old(Snapshot()), e)
    {
      hide Inv, Unlocked, Enter, Critical, Leave;
      match e {
        case Create(id, toUser) => CreateShare(id, toUser);
        case Start(c) => var _ := StartCall(c);
        case Expire(k) => ExpireSession(k);
        case ConfirmDirectly(k) => ConfirmImport(k);
        case Step(g, ok) => StepOf(g, ok);
      }
    }

    /** What a confirm of a free share does to rows, sessions and tallies, in the end. */
    static ghost predicate ConfirmEnds(s: State, t: State, c: Call, imported: bool, marked: bool)
      requires imported ==> CanConfirm(s, c)
    {
      if imported then
        var u := Confirmed(s, c, marked);
        t.shares == u.shares && t.sessions == u.sessions && t.tallies == u.tallies
      else SameData(s, t)
    }

    /** lockShareConfirm for goroutine g. */
    method LockShareConfirm(g: nat)
      requires Valid() && g < |procs| && procs[g].pc == MapLock && mapHolder == None && procs[g].call.share !in m
      modifies this
      ensures Valid() && Silent(old(Snapshot()), Snapshot(), g, ReadStatus(old(|locks|))) && mapHolder == None
      ensures m == old(m)[procs[g].call.share := old(|locks|)]
      ensures |locks| == old(|locks|) + 1 && locks[old(|locks|)] == Lock(procs[g].call.share, Some(g), 1)
    {
      hide MapHeld, MuHeld, RefsCounted, Attached, EntriesUsed, ImportInv;
      LockMap(g);
      FindLock(g);
      CountRef(g);
      UnlockMap(g);
      LockMutex(g);
    }

    /** The closure it returns. */
    method Unlock(g: nat, l: nat)
      requires Valid() && g < |procs| && procs[g].pc == MuUnlock(l) && mapHolder == None
      requires l < |locks| && locks[l].refs == 1
      modifies this
      ensures Valid() && Silent(old(Snapshot()), Snapshot(), g, Done) && mapHolder == None
      ensures m == old(m) - {procs[g].call.share}
    {
      hide MapHeld, MuHeld, RefsCounted, Attached, EntriesUsed, ImportInv;
      UnlockMutex(g);
      LockMap(g);
      DropRef(g);
      UnlockMap(g);
    }

    /** Under the mutex: the status and the session are checked ... */
    method CheckShare(g: nat, l: nat, readOk: bool, bindingOk: bool) returns (passed: bool)
      requires Valid() && g < |procs| && procs[g].pc == ReadStatus(l) && procs[g].call.Confirm?
      modifies this
      ensures Valid() && Snapshot() == old(Snapshot()).Goto(g, if passed then Import(l) else MuUnlock(l))
      ensures passed <==> readOk && bindingOk && CanConfirm(old(Snapshot()), procs[g].call)
    {
      hide MapHeld, MuHeld, RefsCounted, Attached, EntriesUsed, ImportInv, Enter, Leave, Unlocked;
      Read(g, readOk);
      if procs[g].pc.CheckSession? { CheckBinding(g, bindingOk); }
      passed := procs[g].pc.Import?;
    }

    /** ... the payload is imported, and the share marked. */
    method ImportAndMark(g: nat, l: nat, importOk: bool, marked: bool)
      requires Valid() && g < |procs| && procs[g].pc == Import(l) && CanConfirm(Snapshot(), procs[g].call)
      modifies this
      ensures Valid() && locks == old(locks) && m == old(m) && mapHolder == old(mapHolder)
      ensures procs == old(procs)[g := old(procs)[g].(pc := MuUnlock(l))]
      ensures ConfirmEnds(old(Snapshot()), Snapshot(), old(procs)[g].call, importOk, marked)
    {
      hide MapHeld, MuHeld, RefsCounted, Attached, EntriesUsed, ImportInv, Enter, Leave, Unlocked;
      RunImport(g, importOk);
      if importOk { Mark(g, marked); }
    }

    /** The whole critical section of goroutine g. */
    method LandShare(g: nat, l: nat, readOk: bool, bindingOk: bool, importOk: bool,
                     marked: bool) returns (imported: bool)
      requires Valid() && g < |procs| && procs[g].pc == ReadStatus(l) && procs[g].call.Confirm?
      modifies this
      ensures Valid() && locks == old(locks) && m == old(m) && mapHolder == old(mapHolder)
      ensures procs == old(procs)[g := old(procs)[g].(pc := MuUnlock(l))]
      ensures imported <==> readOk && bindingOk && importOk && CanConfirm(old(Snapshot()), old(procs)[g].call)
      ensures ConfirmEnds(old(Snapshot()), Snapshot(), old(procs)[g].call, imported, marked)
    {
      hide Inv;
      imported := CheckShare(g, l, readOk, bindingOk);
      if imported {
        ImportAndMark(g, l, importOk, marked);
        imported := importOk;
      }
    }

    /** ConfirmContactShare from end to end, when no other goroutine takes part; readOk, bindingOk, importOk and marked
        say which of its database and import actions succeed.  Whatever they do, the lock is released and
        its entry gone;
        the payload is imported exactly if nothing up to the import fails and the share is pending for the user with a
        live session of its own; and if it is not, nothing has changed. */
    method ConfirmContactShare(c: Call, readOk: bool, bindingOk: bool, importOk: bool,
                               marked: bool) returns (imported: bool)
      requires Valid() && c.Confirm? && mapHolder == None && c.share !in m
      modifies this
      ensures imported <==> readOk && bindingOk && importOk && CanConfirm(old(Snapshot()), c)
      ensures ConfirmEnds(old(Snapshot()), Snapshot(), c, imported, marked)
      ensures Valid() && m == old(m) && mapHolder == None && procs == old(procs) + [Proc(c, Done)]
    {
      hide Inv, Apply, InRange, PcFits, CanConfirm, ConfirmEnds;
      ghost var start := Snapshot();
      var l := |locks|;
      InvInRange(Snapshot());
      var g := StartCall(c);
      LockShareConfirm(g);
      ghost var locked := Snapshot();
      imported := LandShare(g, l, readOk, bindingOk, importOk, marked);
      ghost var landed := Snapshot();
      Unlock(g, l);
      ConfirmEndsAround(start, locked, landed, Snapshot(), c, imported, marked);
    }

    /** DeclineContactShare from end to end, when no other goroutine takes part; readOk and saveOk say which of its
        database actions succeed.  It declines exactly if both do and the share is pending for the user, and otherwise
        changes nothing. */
    method DeclineContactShare(id: ShareId, user: UserId, readOk: bool, saveOk: bool) returns (declined: bool)
      requires Valid()
      modifies this
      ensures declined <==> readOk && saveOk && id in old(shares) && old(shares)[id] == Share(user, Pending)
      ensures shares == if declined then old(shares)[id := Share(user, Declined)] else old(shares)
      ensures tallies == if declined
        then old(tallies)[id := old(Snapshot()).TallyOf(id).(declines := old(Snapshot()).TallyOf(id).declines + 1)]
        else old(tallies)
      ensures Valid() && sessions == old(sessions) && m == old(m) && mapHolder == old(mapHolder) && locks == old(locks)
      ensures procs == old(procs) + [Proc(Decline(id, user), Done)]
    {
      hide MapHeld, MuHeld, RefsCounted, Attached, EntriesUsed, ImportInv, Enter, Leave, Critical;
      InvInRange(Snapshot());
      var g := StartCall(Decline(id, user));
      InvInRange(Snapshot());
      Read(g, readOk);
      declined := procs[g].pc.DeclineSave? && saveOk;
      if procs[g].pc.DeclineSave? {
        InvInRange(Snapshot());
        SaveDeclined(g, saveOk);
      }
    }

    /** AcceptContactShare likewise: it mints one session, bound to the share and the user, or changes nothing. */
    method AcceptContactShare(id: ShareId, user: UserId, readOk: bool, mintOk: bool) returns (minted: bool)
      requires Valid()
      modifies this
      ensures minted <==> readOk && mintOk && id in old(shares) && old(shares)[id] == Share(user, Pending)
      ensures sessions == if minted then old(sessions) + [Session(id, user, Unused, true)] else old(sessions)
      ensures Valid() && shares == old(shares) && tallies == old(tallies)
      ensures m == old(m) && mapHolder == old(mapHolder) && locks == old(locks)
      ensures procs == old(procs) + [Proc(Accept(id, user), Done)]
    {
      hide MapHeld, MuHeld, RefsCounted, Attached, EntriesUsed, ImportInv, Enter, Leave, Critical;
      InvInRange(Snapshot());
      var g := StartCall(Accept(id, user));
      InvInRange(Snapshot());
      Read(g, readOk);
      minted := procs[g].pc.AcceptMint? && mintOk;
      if procs[g].pc.AcceptMint? {
        InvInRange(Snapshot());
        Mint(g, mintOk);
      }
    }

    /** Any interleaving of any number of whole calls: the server ends in the state the run leads to, valid, and no
        share has been imported more than once plus once for each failed UPDATE. */
    method RunSchedule(es: seq<Event>, ghost t: State)
      requires Valid() && Run(Snapshot(), es, t)
      modifies this
      ensures Valid() && Snapshot() == t
      ensures forall id :: |t.TallyOf(id).receipts| <= 1 + t.TallyOf(id).failedMarks
    {
      hide Inv, Apply, InRange, Enabled;
      for k := 0 to |es|
        invariant Valid() && Run(Snapshot(), es[k..], t)
      {
        assert es[k..][0] == es[k] && es[k..][1..] == es[k + 1..];
        Do(es[k]);
      }
      forall id ensures |t.TallyOf(id).receipts| <= 1 + t.TallyOf(id).failedMarks { InvBoundsImports(t, id); }
    }
  }

  /** Taking and releasing the lock does not show in the data. */
  lemma ConfirmEndsAround(s: State, locked: State, landed: State, t: State, c: Call, imported: bool, marked: bool)
    requires SameData(s, locked) && SameData(landed, t)
    requires imported ==> CanConfirm(locked, c)
    requires Server.ConfirmEnds(locked, landed, c, imported, marked)
    ensures CanConfirm(s, c) <==> CanConfirm(locked, c)
    ensures Server.ConfirmEnds(s, t, c, imported, marked)
  {
  }

  lemma InvInRange(s: State)
    requires Inv(s)
    ensures InRange(s)
  {
  }

  lemma InvBoundsImports(t: State, id: ShareId)
    requires Inv(t)
    ensures |t.TallyOf(id).receipts| <= 1 + t.TallyOf(id).failedMarks
  {
    assert ShareInv(t, id);
  }
}
