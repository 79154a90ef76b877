/** When the two locks block each other's holders for good. */
module ObserverDeadlock {
  import opened Wrappers
  import opened Observers
  import opened ObserverProtocol
  import opened ObserverInvariant
  import opened ObserverRuns
  import opened ObserverReentry
  import opened ObserverNesting

  // ---------------------------------------------------------------- runs

  lemma {:induction false} WorldsKeep(moves: seq<Move>)
    requires RunFrom(EMPTY, moves).Some?
    ensures WorldInv(RunFrom(EMPTY, moves).value)
  {
    if moves == [] {
      EmptyInv();
    } else {
      var before := moves[..|moves| - 1];
      WorldsKeep(before);
      WorldKept(RunFrom(EMPTY, before).value, moves[|moves| - 1]);
    }
  }

  /** Nesting and ownership only restrict what the protocol does: all that holds of its runs holds here. */
  lemma {:induction false} WorldsAreRuns(moves: seq<Move>) returns (steps: seq<Step>)
    requires RunFrom(EMPTY, moves).Some?
    ensures Run(steps) == Some(RunFrom(EMPTY, moves).value.s)
  {
    if moves == [] {
      steps := [];
    } else {
      var n := |moves| - 1;
      steps := WorldsAreRuns(moves[..n]);
      if moves[n].Take? {
        var more := steps + [moves[n].step];
        assert more[..|steps|] == steps;
        steps := more;
      }
    }
  }

  // ---------------------------------------------------------------- waiting

  /** A removal whose observer is the last owner of an engaged ticket, about to drop that observer. */
  ghost predicate LastOwner(w: World, p: Id) {
    exists h :: Traps(w, p, h)
  }

  predicate NeedsList(c: Call) { c.AddReady? || c.StopWaiting? || c.FireReady? }

  predicate NeedsIndirect(c: Call) { c.StopReady? || c.DyingReady? }

  /** The call has to destroy an engaged ticket first. */
  ghost predicate EngagedOrphan(w: World, id: Id) {
    exists h :: OrphanOf(w, id, h) && h in w.s.handles && w.s.handles[h].ticket != 0
  }

  /** The next thing the call does takes a lock that `holder` holds. */
  ghost predicate WaitsFor(w: World, id: Id, holder: Id) {
    && id in w.s.calls && !Waits(w, id) && holder in w.s.calls
    && ((NeedsList(w.s.calls[id]) && w.s.listLock == Some(holder)) ||
        ((NeedsIndirect(w.s.calls[id]) || EngagedOrphan(w, id)) && w.s.indirectLock == Some(holder)))
  }

  /** Call `n` was made, directly or not, by call `id`, or is this call. */
  predicate Under(w: World, id: Id, n: Id)
    decreases n
  {
    n == id || (n in w.caller && w.caller[n] < n && Under(w, id, w.caller[n]))
  }

  /** Call `id` waits for a lock whose holder has made call `n`, or is that call. */
  ghost predicate Behind(w: World, id: Id, n: Id) {
    exists holder :: WaitsFor(w, id, holder) && Under(w, holder, n)
  }

  ghost predicate BehindOneOf(w: World, id: Id, d: set<Id>) {
    exists n :: n in d && Behind(w, id, n)
  }

  /** Each of the calls can go on only after another one of them has. */
  ghost predicate Circular(w: World, d: set<Id>) {
    d != {} && forall id {:trigger BehindOneOf(w, id, d)} :: id in d ==> BehindOneOf(w, id, d)
  }

  ghost predicate Deadlocked(w: World) {
    exists d :: Circular(w, d)
  }

  /** Only calls inside a callback, or dropping references, wait for calls they have made. */
  lemma OnlyTheseWait(w: World, id: Id)
    requires Nested(w) && Waits(w, id)
    ensures id in w.s.calls && (w.s.calls[id].Calling? || AtDrop(w.s.calls[id]))
  {
    var n :| n in w.caller && w.caller[n] == id;
    assert NestedOk(w, n);
  }

  lemma {:induction false} UnderWaits(w: World, id: Id, n: Id)
    requires Under(w, id, n) && n != id
    ensures Waits(w, id)
    decreases n
  {
    if w.caller[n] != id { UnderWaits(w, id, w.caller[n]); }
  }

  /** A call that holds the list lock waits for nobody. */
  lemma ListHolderFree(w: World, id: Id, next: Id)
    requires id in w.s.calls && HoldsList(w.s.calls[id])
    ensures !WaitsFor(w, id, next)
  {
  }

  /** Nobody was made by it. */
  lemma ListHolderGoesOn(w: World, holder: Id, n: Id, next: Id)
    requires LocksInv(w.s) && Nested(w) && w.s.listLock == Some(holder) && Under(w, holder, n)
    ensures !WaitsFor(w, n, next)
  {
    assert HoldsList(w.s.calls[holder]);
    if Waits(w, holder) { OnlyTheseWait(w, holder); }
    if n != holder { UnderWaits(w, holder, n); }
    ListHolderFree(w, holder, next);
  }

  lemma TrapsAreLastOwners(w: World, p: Id, h: HandleId)
    requires Traps(w, p, h)
    ensures LastOwner(w, p)
  {
  }

  /** The holder of the indirect lock waits for itself only where it drops the last owner. */
  lemma HolderWaits(w: World, holder: Id)
    requires WorldInv(w) && w.s.indirectLock == Some(holder) && WaitsFor(w, holder, holder)
    requires w.s.listLock != Some(holder)
    ensures LastOwner(w, holder)
  {
    assert HoldsIndirect(w.s.calls[holder]);
    var h :| OrphanOf(w, holder, h) && h in w.s.handles && w.s.handles[h].ticket != 0;
    TrapsAreLastOwners(w, holder, h);
  }

  /** The holder of the indirect lock waits for calls it has made only there as well. */
  lemma HolderNests(w: World, holder: Id)
    requires LocksInv(w.s) && Nested(w) && Trapped(w) && w.s.indirectLock == Some(holder) && Waits(w, holder)
    ensures LastOwner(w, holder)
  {
    assert HoldsIndirect(w.s.calls[holder]);
    OnlyTheseWait(w, holder);
    var child :| child in w.caller && w.caller[child] == holder;
    TrapsAreLastOwners(w, holder, w.s.calls[child].e.h);
  }

  /** If a call is behind one that is behind another one that waits, a removal drops a last owner. */
  lemma CircleHasLastOwner(w: World, id: Id, n: Id, m: Id, last: Id)
    requires WorldInv(w) && Behind(w, id, n) && Behind(w, n, m) && Behind(w, m, last)
    ensures exists p :: LastOwner(w, p)
  {
    var holder :| WaitsFor(w, id, holder) && Under(w, holder, n);
    var next :| WaitsFor(w, n, next) && Under(w, next, m);
    var end :| WaitsFor(w, m, end) && Under(w, end, last);
    HoldersHaveLastOwner(w, id, holder, n, next, m, end);
  }

  lemma HoldersHaveLastOwner(w: World, id: Id, holder: Id, n: Id, next: Id, m: Id, end: Id)
    requires WorldInv(w)
    requires WaitsFor(w, id, holder) && Under(w, holder, n)
    requires WaitsFor(w, n, next) && Under(w, next, m) && WaitsFor(w, m, end)
    ensures LastOwner(w, holder)
  {
    if w.s.listLock == Some(holder) { ListHolderGoesOn(w, holder, n, next); }
    if w.s.listLock == Some(next) { ListHolderGoesOn(w, next, m, end); }
    if n == holder { HolderWaits(w, holder); } else {
      UnderWaits(w, holder, n);
      HolderNests(w, holder);
    }
  }

  lemma DeadlockHasLastOwner(w: World)
    requires WorldInv(w) && Deadlocked(w)
    ensures exists p :: LastOwner(w, p)
  {
    var d :| Circular(w, d);
    var id :| id in d;
    assert BehindOneOf(w, id, d);
    var n :| n in d && Behind(w, id, n);
    assert BehindOneOf(w, n, d);
    var m :| m in d && Behind(w, n, m);
    assert BehindOneOf(w, m, d);
    var last :| last in d && Behind(w, m, last);
    CircleHasLastOwner(w, id, n, m, last);
  }

  /** One call that waits for a lock held by a call it was made by is a circle. */
  lemma OneCallCircle(w: World, holder: Id, n: Id)
    requires WaitsFor(w, n, holder) && Under(w, holder, n)
    ensures Deadlocked(w)
  {
    assert Behind(w, n, n);
    assert BehindOneOf(w, n, {n});
    assert Circular(w, {n});
  }

  /** The destructor of the ticket waits for the call it runs in. */
  lemma DestructorWaits(w: World, p: Id, n: Id)
    requires WorldInv(w) && LastOwner(w, p) && n in w.caller && w.caller[n] == p
    ensures WaitsFor(w, n, p) && Under(w, p, n)
  {
    assert NestedOk(w, n) && w.s.calls[n].StopReady?;
    assert HoldsIndirect(w.s.calls[p]);
    if Waits(w, n) { OnlyTheseWait(w, n); }
    assert Under(w, p, p);
  }

  lemma LastOwnerBlocks(w: World, p: Id)
    requires WorldInv(w) && LastOwner(w, p)
    ensures Deadlocked(w)
  {
    if n :| n in w.caller && w.caller[n] == p {
      DestructorWaits(w, p, n);
      OneCallCircle(w, p, n);
    } else {
      assert !Waits(w, p) && HoldsIndirect(w.s.calls[p]);
      var h :| Traps(w, p, h);
      assert EngagedOrphan(w, p) && Under(w, p, p);
      OneCallCircle(w, p, p);
    }
  }

  /** The locks block calls for good exactly when a removal, with the indirect lock held, drops the last
      owner of an engaged ticket of the same observable. */
  lemma DeadlockIffLastOwner(moves: seq<Move>)
    requires RunFrom(EMPTY, moves).Some?
    ensures var w := RunFrom(EMPTY, moves).value; Deadlocked(w) <==> exists p :: LastOwner(w, p)
  {
    var w := RunFrom(EMPTY, moves).value;
    WorldsKeep(moves);
    if Deadlocked(w) { DeadlockHasLastOwner(w); }
    if p :| LastOwner(w, p) { LastOwnerBlocks(w, p); }
  }

  /** A removal blocked like this never returns and never gives the lock back, whatever else happens. */
  lemma {:induction false} BlockedForGood(w: World, p: Id, more: seq<Move>)
    requires WorldInv(w) && LastOwner(w, p) && RunFrom(w, more).Some?
    ensures var v := RunFrom(w, more).value;
            WorldInv(v) && LastOwner(v, p) && v.s.calls[p] == w.s.calls[p] && v.s.indirectLock == Some(p)
  {
    if more == [] {
      assert HoldsIndirect(w.s.calls[p]);
    } else {
      var n := |more| - 1;
      var v := RunFrom(w, more[..n]).value;
      BlockedForGood(w, p, more[..n]);
      var h :| Traps(v, p, h);
      WorldKept(v, more[n]);
      MoveKeepsTrap(v, more[n], p, h);
      var u := RunFrom(w, more).value;
      assert Traps(u, p, h) && HoldsIndirect(u.s.calls[p]);
    }
  }
}
