/** As long as no removal drops a last owner, some call in progress can go on; and a run in which one does. */
module ObserverProgress {
  import opened Wrappers
  import opened Observers
  import opened ObserverProtocol
  import opened ObserverInvariant
  import opened ObserverReentry
  import opened ObserverNesting
  import opened ObserverDeadlock

  /** The moves a call goes on with: to its next point, to its end, or by destroying what it drops. */
  ghost predicate Serves(w: World, id: Id, m: Move) {
    match m
    case Take(Advance(i, _), None) => i == id
    case Take(Deliver(i, _), None) => i == id
    case Take(FinishStop(i), None) => i == id
    case Take(BeginStop(_, h, Discard), Some(from)) => from == id && OrphanOf(w, id, h)
    case Take(DropEmpty(h), None) => OrphanOf(w, id, h)
    case _ => false
  }

  ghost predicate CanProceed(w: World, id: Id) {
    exists m :: Serves(w, id, m) && DoMove(w, m).Some?
  }

  /** A number above all others. */
  lemma {:induction false} Above(ids: set<nat>) returns (n: nat)
    ensures forall id :: id in ids ==> id < n
    decreases |ids|
  {
    if ids == {} {
      n := 0;
    } else {
      var id :| id in ids;
      var m := Above(ids - {id});
      n := if m <= id then id + 1 else m;
      assert forall k :: k in ids ==> k == id || k in ids - {id};
    }
  }

  lemma UserWaitedFor(w: World, id: Id, h: HandleId)
    requires WorldInv(w) && OrphanOf(w, id, h) && w.s.handles[h].busy.Some?
    ensures Waits(w, id)
  {
    assert CaptiveOk(w, h);
    var n := w.s.handles[h].busy.value;
    assert w.caller[n] == id;
  }

  /** Handles that are about to be orphaned are not in use. */
  lemma OrphanIdle(w: World, id: Id, h: HandleId)
    requires WorldInv(w) && !Waits(w, id) && OrphanOf(w, id, h)
    ensures Idle(w.s, h)
  {
    assert CaptiveOk(w, h);
    if w.s.handles[h].busy.Some? { UserWaitedFor(w, id, h); }
  }

  /** A call about to orphan a handle can destroy it. */
  lemma DropperProceeds(w: World, id: Id, h: HandleId)
    requires WorldInv(w) && !Waits(w, id) && OrphanOf(w, id, h)
    ensures CanProceed(w, id)
  {
    OrphanIdle(w, id, h);
    if w.s.handles[h].ticket == 0 {
      assert Serves(w, id, Take(DropEmpty(h), None)) && DoMove(w, Take(DropEmpty(h), None)).Some?;
    } else {
      var n := Above(w.s.calls.Keys);
      assert Destructor(w, Some(id), n, h, Discard);
      assert Serves(w, id, Take(BeginStop(n, h, Discard), Some(id)));
      assert DoMove(w, Take(BeginStop(n, h, Discard), Some(id))).Some?;
    }
  }

  lemma NotStuck(s: State, c: Call)
    requires FireCallOk(s.log, c) && !c.Returning? && !c.StopFinished?
    ensures !NextPoint(s, c, None).Stuck?
  {
  }

  /** The locks a call takes on its way are those it needs next. */
  lemma TakesNeeded(s: State, c: Call)
    requires NextPoint(s, c, None).To?
    ensures HoldsList(NextPoint(s, c, None).c) && !HoldsList(c) ==> NeedsList(c)
    ensures HoldsIndirect(NextPoint(s, c, None).c) && !HoldsIndirect(c) ==> NeedsIndirect(c)
  {
  }

  lemma Advances(s: State, id: Id)
    requires FireInv(s) && id in s.calls && !s.calls[id].Returning? && !s.calls[id].StopFinished?
    requires NeedsList(s.calls[id]) ==> s.listLock == None
    requires NeedsIndirect(s.calls[id]) ==> s.indirectLock == None
    ensures DoAdvance(s, id, None).Some?
  {
    NotStuck(s, s.calls[id]);
    if NextPoint(s, s.calls[id], None).To? { TakesNeeded(s, s.calls[id]); }
  }

  /** A call that holds what it needs, and drops nothing, advances. */
  lemma AdvanceProceeds(w: World, id: Id)
    requires id in w.s.calls && !Waits(w, id) && forall h :: !OrphanOf(w, id, h)
    requires DoAdvance(w.s, id, None).Some?
    ensures CanProceed(w, id)
  {
    var m := Take(Advance(id, None), None);
    assert May(w, m.step, None);
    assert Serves(w, id, m) && DoMove(w, m).Some?;
  }

  lemma ReturnProceeds(w: World, id: Id)
    requires WorldInv(w) && id in w.s.calls && !Waits(w, id) && w.s.calls[id].Returning?
    ensures CanProceed(w, id)
  {
    var h := Above(w.s.handles.Keys);
    assert DoDeliver(w.s, id, h).Some?;
    assert Serves(w, id, Take(Deliver(id, h), None)) && DoMove(w, Take(Deliver(id, h), None)).Some?;
  }

  lemma FinishProceeds(w: World, id: Id)
    requires WorldInv(w) && id in w.s.calls && !Waits(w, id) && w.s.calls[id].StopFinished?
    ensures CanProceed(w, id)
  {
    assert EndingOk(w.s.handles, id, w.s.calls[id].e);
    assert DoFinishStop(w.s, id).Some?;
    assert Serves(w, id, Take(FinishStop(id), None)) && DoMove(w, Take(FinishStop(id), None)).Some?;
  }

  lemma CallProceeds(w: World, id: Id)
    requires WorldInv(w) && id in w.s.calls && !Waits(w, id)
    requires NeedsList(w.s.calls[id]) ==> w.s.listLock == None
    requires NeedsIndirect(w.s.calls[id]) ==> w.s.indirectLock == None
    ensures CanProceed(w, id)
  {
    if h :| OrphanOf(w, id, h) {
      DropperProceeds(w, id, h);
    } else if w.s.calls[id].Returning? {
      ReturnProceeds(w, id);
    } else if w.s.calls[id].StopFinished? {
      FinishProceeds(w, id);
    } else {
      Advances(w.s, id);
      AdvanceProceeds(w, id);
    }
  }

  /** Some call waits for none that it has made. */
  lemma SomeInnermost(w: World) returns (id: Id)
    requires WorldInv(w) && w.s.calls != map[]
    ensures id in w.s.calls && !Waits(w, id)
  {
    id :| id in w.s.calls;
    var limit := Above(w.s.calls.Keys);
    while Waits(w, id)
      invariant id in w.s.calls && id < limit
      decreases limit - id
    {
      var n :| n in w.caller && w.caller[n] == id;
      assert NestedOk(w, n);
      id := n;
    }
  }

  lemma ListHolderProceeds(w: World, id: Id)
    requires WorldInv(w) && w.s.listLock == Some(id)
    ensures id in w.s.calls && CanProceed(w, id)
  {
    assert HoldsList(w.s.calls[id]);
    if Waits(w, id) { OnlyTheseWait(w, id); }
    CallProceeds(w, id);
  }

  lemma IndirectHolderProceeds(w: World, id: Id)
    requires WorldInv(w) && w.s.listLock == None && w.s.indirectLock == Some(id) && !LastOwner(w, id)
    ensures id in w.s.calls && CanProceed(w, id)
  {
    assert HoldsIndirect(w.s.calls[id]);
    if Waits(w, id) { HolderNests(w, id); }
    CallProceeds(w, id);
  }

  /** As long as no removal is dropping the last owner of an engaged ticket, some call in progress can go on. */
  lemma NoDeadlock(moves: seq<Move>)
    requires RunFrom(EMPTY, moves).Some? && RunFrom(EMPTY, moves).value.s.calls != map[]
    requires forall p :: !LastOwner(RunFrom(EMPTY, moves).value, p)
    ensures var w := RunFrom(EMPTY, moves).value; exists id :: id in w.s.calls && CanProceed(w, id)
  {
    var w := RunFrom(EMPTY, moves).value;
    WorldsKeep(moves);
    if w.s.listLock.Some? {
      ListHolderProceeds(w, w.s.listLock.value);
    } else if w.s.indirectLock.Some? {
      IndirectHolderProceeds(w, w.s.indirectLock.value);
    } else {
      var id := SomeInnermost(w);
      CallProceeds(w, id);
    }
  }
}
