/** What every move keeps of the nesting of calls and of the tickets owned by callbacks. */
module ObserverNesting {
  import opened Wrappers
  import opened Observers
  import opened ObserverProtocol
  import opened ObserverInvariant
  import opened ObserverReentry

  /** A call is made from inside a callback, or by a call that drops its references. */
  ghost predicate Nested(w: World) {
    forall n :: n in w.caller ==> NestedOk(w, n)
  }

  ghost predicate NestedOk(w: World, n: Id)
    requires n in w.caller
  {
    var p := w.caller[n];
    n in w.s.calls && p in w.s.calls && p < n && (w.s.calls[p].Calling? || AtDrop(w.s.calls[p]))
  }

  /** A handle owned by a callback is in use only by a call made from one that refers to the callback. */
  ghost predicate Captives(w: World) {
    forall h :: h in w.captured ==> CaptiveOk(w, h)
  }

  ghost predicate CaptiveOk(w: World, h: HandleId)
    requires h in w.captured
  {
    h in w.s.handles &&
    match w.s.handles[h].busy
    case None => true
    case Some(n) => n in w.caller && KeptBy(w.s, w.caller[n], w.captured[h])
  }

  /** The call drops, with the indirect lock held, the last reference to a callback that owns an engaged
      ticket. */
  ghost predicate Traps(w: World, p: Id, h: HandleId) {
    && p in w.s.calls && w.s.calls[p].StopUnlocked?
    && h in w.s.handles && w.s.handles[h].ticket != 0 && OrphanOf(w, p, h)
  }

  /** Calls made at that point have not got past their first point. */
  ghost predicate Trapped(w: World) {
    forall n :: n in w.caller && w.caller[n] in w.s.calls && w.s.calls[w.caller[n]].StopUnlocked? ==>
      n in w.s.calls && w.s.calls[n].StopReady? && Traps(w, w.caller[n], w.s.calls[n].e.h)
  }

  ghost predicate WorldInv(w: World) {
    Inv(w.s) && Nested(w) && Captives(w) && Trapped(w)
  }

  lemma EmptyInv()
    ensures WorldInv(EMPTY)
  {
    StartInv();
  }

  // ---------------------------------------------------------------- references

  /** A callback that is being dropped by a removal is in no list that can still be copied. */
  lemma OrphanNotCopied(s: State, p: Id, callback: nat, id: Id)
    requires Inv(s) && Orphaned(s, p, callback) && s.calls[p].StopUnlocked? && id in s.calls
    requires var c := s.calls[id]; c.AddLocked? || c.FireLocked? || c.StopLocked? || c.DyingReset?
    ensures !Mentions(s.observers, callback)
  {
    assert LifeOk(s, s.calls[id]);
    assert forall other :: other in s.calls && s.calls[other].DyingFreed? ==> !LifeOk(s, s.calls[id]) || other == p;
  }

  lemma MentionsJoin(a: seq<Observer>, b: seq<Observer>, callback: nat)
    ensures Mentions(a + b, callback) <==> Mentions(a, callback) || Mentions(b, callback)
  {
    if k :| 0 <= k < |a| && a[k].callback == callback { assert (a + b)[k] == a[k]; }
    if k :| 0 <= k < |b| && b[k].callback == callback { assert (a + b)[|a| + k] == b[k]; }
  }

  lemma WithoutMentions(list: seq<Observer>, ticket: nat, callback: nat)
    ensures Mentions(Without(list, ticket), callback) ==> Mentions(list, callback)
  {
    var i := FindTicket(list, ticket);
    if i < |list| {
      MentionsJoin(list[..i], list[i + 1..], callback);
      MentionsJoin(list[..i], list[i..], callback);
      MentionsJoin([list[i]], list[i + 1..], callback);
      assert list == list[..i] + list[i..] && list[i..] == [list[i]] + list[i + 1..];
    }
  }

  /** A call comes to refer to what it referred to before, or to what the list mentions it copies. */
  lemma HeldNext(s: State, c: Call, outcome: Option<Error>, callback: nat)
    requires NextPoint(s, c, outcome).To? && Mentions(Held(NextPoint(s, c, outcome).c), callback)
    ensures Mentions(Held(c), callback) ||
            ((c.AddLocked? || c.FireLocked? || c.StopLocked?) && Mentions(s.observers, callback))
  {
    if c.AddLocked? {
      MentionsJoin(s.observers + [c.o], [c.o], callback);
      MentionsJoin(s.observers, [c.o], callback);
    }
  }

  /** What a call publishes it referred to before. */
  lemma PublishedHeld(s: State, id: Id, callback: nat)
    requires ListInv(s) && id in s.calls && ListAfter(s, s.calls[id]) != s.observers
    requires Mentions(ListAfter(s, s.calls[id]), callback)
    ensures KeptBy(s, id, callback)
  {
    assert CopyOk(s.observers, s.calls[id]);
    match s.calls[id]
    case AddBuilt(o, copy) => MentionsJoin(copy, [o], callback);
    case StopBuilt(e, before, shorter) => WithoutMentions(before, e.ticket, callback);
    case _ =>
  }

  lemma AdvancePublishesNone(s: State, id: Id, outcome: Option<Error>, callback: nat)
    requires ListInv(s) && DoAdvance(s, id, outcome).Some?
    requires !KeptBy(s, id, callback) && !Published(s, callback)
    ensures !Published(DoAdvance(s, id, outcome).value, callback)
  {
    var t := DoAdvance(s, id, outcome).value;
    if t.observers != s.observers && Mentions(t.observers, callback) { PublishedHeld(s, id, callback); }
    forall d | d in s.calls && s.calls[d].DyingFreed? && d != id ensures t.calls[d].DyingFreed? {}
  }

  /** Advancing another call does not bring back a callback that is being dropped by a removal. */
  lemma AdvanceKeepsOrphan(s: State, id: Id, outcome: Option<Error>, p: Id, callback: nat)
    requires Inv(s) && DoAdvance(s, id, outcome).Some? && id != p
    requires Orphaned(s, p, callback) && s.calls[p].StopUnlocked?
    ensures Orphaned(DoAdvance(s, id, outcome).value, p, callback)
  {
    var t, c := DoAdvance(s, id, outcome).value, s.calls[id];
    assert !KeptBy(s, id, callback);
    if c.AddLocked? || c.FireLocked? || c.StopLocked? || c.DyingReset? { OrphanNotCopied(s, p, callback, id); }
    if NextPoint(s, c, outcome).To? && Mentions(Held(NextPoint(s, c, outcome).c), callback) {
      HeldNext(s, c, outcome, callback);
    }
    assert !KeptBy(t, id, callback);
    AdvancePublishesNone(s, id, outcome, callback);
    forall other | other != p ensures !KeptBy(t, other, callback) {
      assert !KeptBy(s, other, callback);
    }
  }

  /** The number of the call a step continues or ends. */
  predicate Continues(step: Step, id: Id) {
    match step
    case Advance(i, _) => i == id
    case Deliver(i, _) => i == id
    case FinishStop(i) => i == id
    case _ => false
  }

  /** A call that has just begun. */
  predicate Starting(c: Call, step: Step) {
    || (c.AddReady? && step.BeginAdd? && c.o.callback == step.callback)
    || c.StopReady? || c.FireReady? || c.DyingReady?
  }

  /** What steps other than advancing do to the list and to the calls: one begins, or one ends. */
  ghost predicate Quiet(s: State, t: State, step: Step) {
    && t.observers == s.observers && t.destroyed == s.destroyed && t.alive == s.alive
    && (forall id :: id in t.calls ==> (id in s.calls && t.calls[id] == s.calls[id]) || Starting(t.calls[id], step))
    && (forall id :: id in s.calls && !Continues(step, id) ==> id in t.calls && t.calls[id] == s.calls[id])
    && (forall id :: id in s.calls && Continues(step, id) ==> s.calls[id].Returning? || s.calls[id].StopFinished?)
  }

  lemma BeginAddQuiet(s: State, step: Step)
    requires step.BeginAdd? && DoBeginAdd(s, step.id, step.callback, step.mask, step.ticketed).Some?
    ensures Quiet(s, DoBeginAdd(s, step.id, step.callback, step.mask, step.ticketed).value, step)
  {
  }

  lemma BeginStopQuiet(s: State, step: Step)
    requires step.BeginStop? && DoBeginStop(s, step.id, step.h, step.after).Some?
    ensures Quiet(s, DoBeginStop(s, step.id, step.h, step.after).value, step)
  {
  }

  lemma DeliverQuiet(s: State, step: Step)
    requires step.Deliver? && DoDeliver(s, step.id, step.h).Some?
    ensures Quiet(s, DoDeliver(s, step.id, step.h).value, step)
  {
  }

  lemma FinishCalls(s: State, id: Id)
    requires DoFinishStop(s, id).Some?
    ensures var t := DoFinishStop(s, id).value;
            && t.observers == s.observers && t.destroyed == s.destroyed && t.alive == s.alive
            && t.calls == s.calls - {id} && s.calls[id].StopFinished?
  {
  }

  lemma FinishQuiet(s: State, step: Step)
    requires step.FinishStop? && DoFinishStop(s, step.id).Some?
    ensures Quiet(s, DoFinishStop(s, step.id).value, step)
  {
    FinishCalls(s, step.id);
  }

  lemma HandleQuiet(s: State, step: Step)
    requires DoHandle(s, step).Some?
    ensures Quiet(s, DoHandle(s, step).value, step)
  {
  }

  lemma BeginQuiet(s: State, t: State, step: Step, id: Id, c: Call, closing: bool)
    requires Begun(step) == Some(id) && id !in s.calls && t == s.(calls := s.calls[id := c], closing := closing)
    requires Starting(c, step)
    ensures Quiet(s, t, step)
  {
  }

  lemma StepQuiet(s: State, step: Step)
    requires Do(s, step).Some? && !step.Advance?
    ensures Quiet(s, Do(s, step).value, step)
  {
    match step
    case BeginAdd(_, _, _, _) => BeginAddQuiet(s, step);
    case BeginStop(_, _, _) => BeginStopQuiet(s, step);
    case BeginFire(id, mask) => BeginQuiet(s, Do(s, step).value, step, id, FireReady(mask, |s.log|), s.closing);
    case BeginDestroy(id) => BeginQuiet(s, Do(s, step).value, step, id, DyingReady, true);
    case Deliver(_, _) => DeliverQuiet(s, step);
    case FinishStop(_) => FinishQuiet(s, step);
    case _ => HandleQuiet(s, step);
  }

  lemma QuietKeepsOrphan(s: State, t: State, step: Step, p: Id, callback: nat)
    requires Quiet(s, t, step) && Orphaned(s, p, callback) && (step.BeginAdd? ==> step.callback != callback)
    ensures Orphaned(t, p, callback) && t.calls[p] == s.calls[p]
  {
    forall other | other != p ensures !KeptBy(t, other, callback) {
      assert !KeptBy(s, other, callback);
    }
  }

  /** No step of the rest of the world brings a callback back that is being dropped by a removal. */
  lemma StepKeepsOrphan(s: State, step: Step, p: Id, callback: nat)
    requires Inv(s) && Do(s, step).Some? && !Continues(step, p)
    requires Orphaned(s, p, callback) && s.calls[p].StopUnlocked?
    requires step.BeginAdd? ==> step.callback != callback
    ensures Orphaned(Do(s, step).value, p, callback) && Do(s, step).value.calls[p] == s.calls[p]
  {
    if step.Advance? {
      AdvanceKeepsOrphan(s, step.id, step.outcome, p, callback);
    } else {
      StepQuiet(s, step);
      QuietKeepsOrphan(s, Do(s, step).value, step, p, callback);
    }
  }

  /** A callback that is being dropped by a removal is not running, and is not forgotten yet. */
  lemma OrphanNotRunning(s: State, p: Id, callback: nat)
    requires Orphaned(s, p, callback) && s.calls[p].StopUnlocked?
    ensures !Running(s, callback) && Kept(s, callback)
  {
    if id :| id in s.calls && Inside(s.calls[id], callback) {
      assert Mentions(Held(s.calls[id]), callback);
      assert KeptBy(s, id, callback);
    }
  }

  /** A call in use of a handle of such a callback is stuck. */
  lemma UserIsStuck(w: World, p: Id, h: HandleId, n: Id)
    requires WorldInv(w) && Traps(w, p, h) && w.s.handles[h].busy == Some(n)
    ensures n in w.caller && w.caller[n] == p && w.s.calls[n].StopReady?
  {
    assert CaptiveOk(w, h) && NestedOk(w, n);
  }

  /** The handle of a call that is finishing is not one of those. */
  lemma FinishingElsewhere(w: World, p: Id, h: HandleId, n: Id)
    requires WorldInv(w) && Traps(w, p, h) && n in w.s.calls && w.s.calls[n].StopFinished?
    ensures w.s.calls[n].e.h != h && w.s.calls[n].e.after != TakeFrom(h)
  {
    var e := w.s.calls[n].e;
    assert EndingOk(w.s.handles, n, e);
    if e.h == h || e.after == TakeFrom(h) { UserIsStuck(w, p, h, n); }
  }

  /** The steps that change what a handle holds, or remove it. */
  predicate ChangesHandle(s: State, step: Step, h: HandleId) {
    match step
    case FinishStop(id) =>
      id in s.calls && s.calls[id].StopFinished? && (s.calls[id].e.h == h || s.calls[id].e.after == TakeFrom(h))
    case MoveHandle(src, dst) => src == h || dst == h
    case DropEmpty(g) => g == h
    case AssignToEmpty(g, src) => g == h || src == h
    case _ => false
  }

  predicate SameTicket(s: State, t: State, h: HandleId)
    requires h in s.handles
  {
    h in t.handles && t.handles[h].ticket == s.handles[h].ticket
  }

  lemma FinishUnchanged(s: State, step: Step, h: HandleId)
    requires step.FinishStop? && DoFinishStop(s, step.id).Some? && h in s.handles && !ChangesHandle(s, step, h)
    ensures SameTicket(s, DoFinishStop(s, step.id).value, h)
  {
  }

  lemma HandleUnchanged(s: State, step: Step, h: HandleId)
    requires DoHandle(s, step).Some? && h in s.handles && !ChangesHandle(s, step, h)
    ensures SameTicket(s, DoHandle(s, step).value, h)
  {
  }

  lemma UnchangedHandle(s: State, step: Step, h: HandleId)
    requires Do(s, step).Some? && h in s.handles && !ChangesHandle(s, step, h)
    ensures SameTicket(s, Do(s, step).value, h)
  {
    match step
    case FinishStop(_) => FinishUnchanged(s, step, h);
    case BeginStop(_, _, _) =>
    case BeginAdd(_, _, _, _) =>
    case BeginFire(_, _) =>
    case BeginDestroy(_) =>
    case Advance(_, _) =>
    case Deliver(_, _) =>
    case _ => HandleUnchanged(s, step, h);
  }

  /** No move takes the ticket away from such a callback. */
  lemma StepKeepsTicket(w: World, step: Step, from: Option<Id>, p: Id, h: HandleId)
    requires WorldInv(w) && Traps(w, p, h) && May(w, step, from) && Do(w.s, step).Some?
    ensures SameTicket(w.s, Do(w.s, step).value, h)
  {
    OrphanNotRunning(w.s, p, w.captured[h]);
    if step.FinishStop? { FinishingElsewhere(w, p, h, step.id); }
    assert !ChangesHandle(w.s, step, h);
    UnchangedHandle(w.s, step, h);
  }

  lemma StepKeepsTrap(w: World, step: Step, from: Option<Id>, p: Id, h: HandleId)
    requires WorldInv(w) && Traps(w, p, h) && May(w, step, from) && Do(w.s, step).Some?
    ensures var t := Do(w.s, step).value;
            && SameTicket(w.s, t, h) && Orphaned(t, p, w.captured[h]) && t.calls[p] == w.s.calls[p]
  {
    OrphanNotRunning(w.s, p, w.captured[h]);
    StepKeepsTicket(w, step, from, p, h);
    StepKeepsOrphan(w.s, step, p, w.captured[h]);
  }

  /** A removal that drops the last owner of an engaged ticket stays at this point whatever move is made. */
  lemma MoveKeepsTrap(w: World, m: Move, p: Id, h: HandleId)
    requires WorldInv(w) && Traps(w, p, h) && DoMove(w, m).Some?
    ensures Traps(DoMove(w, m).value, p, h) && DoMove(w, m).value.s.calls[p] == w.s.calls[p]
  {
    match m
    case Capture(g, callback) => CaptureKeepsTrap(w, g, callback, p, h);
    case Share(g) => ShareKeepsTrap(w, g, p, h);
    case Take(step, from) => StepKeepsTrap(w, step, from, p, h);
  }

  lemma CaptureKeepsTrap(w: World, g: HandleId, callback: nat, p: Id, h: HandleId)
    requires Traps(w, p, h) && g !in w.captured
    ensures Traps(w.(captured := w.captured[g := callback]), p, h)
  {
  }

  lemma ShareKeepsTrap(w: World, g: HandleId, p: Id, h: HandleId)
    requires Traps(w, p, h) && g in w.captured && Running(w.s, w.captured[g])
    ensures Traps(w.(captured := w.captured - {g}), p, h)
  {
    OrphanNotRunning(w.s, p, w.captured[h]);
  }

  // ---------------------------------------------------------------- every move

  lemma UntouchedByAdvance(s: State, id: Id, outcome: Option<Error>, other: Id)
    requires DoAdvance(s, id, outcome).Some? && other in s.calls && other != id
    ensures other in DoAdvance(s, id, outcome).value.calls && DoAdvance(s, id, outcome).value.calls[other] == s.calls[other]
  {
  }

  lemma UntouchedCall(s: State, step: Step, id: Id)
    requires Do(s, step).Some? && id in s.calls && !Continues(step, id)
    ensures id in Do(s, step).value.calls && Do(s, step).value.calls[id] == s.calls[id]
  {
    if step.Advance? { UntouchedByAdvance(s, step.id, step.outcome, id); } else { StepQuiet(s, step); }
  }

  /** A call that waits is not continued. */
  lemma WaitingUntouched(w: World, step: Step, from: Option<Id>, n: Id)
    requires Nested(w) && May(w, step, from) && Do(w.s, step).Some? && n in w.caller
    ensures var p, t := w.caller[n], Do(w.s, step).value;
            !Continues(step, p) && p in w.s.calls && p in t.calls && t.calls[p] == w.s.calls[p]
  {
    assert NestedOk(w, n) && Waits(w, w.caller[n]);
    UntouchedCall(w.s, step, w.caller[n]);
  }

  lemma FrozenList(s: State, step: Step, p: Id)
    requires Inv(s) && Do(s, step).Some? && p in s.calls && s.calls[p].DyingFreed?
    ensures Do(s, step).value.observers == s.observers
  {
    if step.Advance? { FrozenByAdvance(s, step.id, step.outcome, p); } else { StepQuiet(s, step); }
  }

  lemma FrozenByAdvance(s: State, id: Id, outcome: Option<Error>, p: Id)
    requires LifeInv(s) && DoAdvance(s, id, outcome).Some? && p in s.calls && s.calls[p].DyingFreed?
    ensures DoAdvance(s, id, outcome).value.observers == s.observers
  {
    assert LifeOk(s, s.calls[p]) && LifeOk(s, s.calls[id]);
  }

  lemma KeptByStays(s: State, step: Step, p: Id, callback: nat)
    requires Inv(s) && Do(s, step).Some? && !Continues(step, p) && KeptBy(s, p, callback)
    ensures KeptBy(Do(s, step).value, p, callback)
  {
    UntouchedCall(s, step, p);
    if s.calls[p].DyingFreed? { FrozenList(s, step, p); }
  }

  lemma MoveKeepsNested(w: World, step: Step, from: Option<Id>)
    requires Nested(w) && DoMove(w, Take(step, from)).Some?
    ensures Nested(DoMove(w, Take(step, from)).value)
  {
    var v := DoMove(w, Take(step, from)).value;
    forall n | n in v.caller ensures NestedOk(v, n) {
      if from.Some? && Begun(step) == Some(n) {
        UntouchedCall(w.s, step, from.value);
      } else {
        assert NestedOk(w, n);
        WaitingUntouched(w, step, from, n);
      }
    }
  }

  /** Whoever uses a handle after a step did so before, or has just begun to. */
  predicate BusyFrom(s: State, t: State, step: Step, h: HandleId)
    requires h in s.handles && h in t.handles
  {
    var b := t.handles[h].busy;
    || b == None || b == s.handles[h].busy
    || (step.BeginStop? && b == Some(step.id) && (h == step.h || step.after == TakeFrom(h)))
  }

  lemma FinishBusy(s: State, step: Step, h: HandleId)
    requires step.FinishStop? && DoFinishStop(s, step.id).Some? && h in s.handles && h in DoFinishStop(s, step.id).value.handles
    ensures BusyFrom(s, DoFinishStop(s, step.id).value, step, h)
  {
  }

  lemma HandleBusy(s: State, step: Step, h: HandleId)
    requires DoHandle(s, step).Some? && h in s.handles && h in DoHandle(s, step).value.handles
    ensures BusyFrom(s, DoHandle(s, step).value, step, h)
  {
  }

  lemma BusyAfter(s: State, step: Step, h: HandleId)
    requires Do(s, step).Some? && h in s.handles && h in Do(s, step).value.handles
    ensures BusyFrom(s, Do(s, step).value, step, h)
  {
    match step
    case FinishStop(_) => FinishBusy(s, step, h);
    case BeginStop(_, _, _) =>
    case BeginAdd(_, _, _, _) =>
    case BeginFire(_, _) =>
    case BeginDestroy(_) =>
    case Advance(_, _) =>
    case Deliver(_, _) =>
    case _ => HandleBusy(s, step, h);
  }

  lemma CallerStays(w: World, t: State, step: Step, from: Option<Id>, n: Id)
    requires n in w.caller && n in t.calls && Begun(step) != Some(n)
    ensures n in CallerAfter(w, t, step, from) && CallerAfter(w, t, step, from)[n] == w.caller[n]
  {
  }

  lemma BegunAnew(s: State, step: Step, n: Id)
    requires Do(s, step).Some? && n in s.calls
    ensures Begun(step) != Some(n)
  {
  }

  /** The user of a handle goes on using it. */
  lemma UserStays(w: World, step: Step, from: Option<Id>, h: HandleId, n: Id)
    requires WorldInv(w) && May(w, step, from) && Do(w.s, step).Some? && h in w.captured && h in Do(w.s, step).value.handles
    requires w.s.handles[h].busy == Some(n) == Do(w.s, step).value.handles[h].busy
    ensures var t := Do(w.s, step).value;
            var caller := CallerAfter(w, t, step, from);
            n in caller && KeptBy(t, caller[n], w.captured[h])
  {
    var t := Do(w.s, step).value;
    assert CaptiveOk(w, h) && NestedOk(w, n);
    StepKept(w.s, step);
    assert BusyOk(t.calls, h, n);
    BegunAnew(w.s, step, n);
    CallerStays(w, t, step, from, n);
    WaitingUntouched(w, step, from, n);
    KeptByStays(w.s, step, w.caller[n], w.captured[h]);
  }

  lemma InsideKeeps(s: State, id: Id, callback: nat)
    requires id in s.calls && Inside(s.calls[id], callback)
    ensures KeptBy(s, id, callback)
  {
    assert Mentions(Held(s.calls[id]), callback);
  }

  /** A new user of a handle was called by a call that refers to the callback. */
  lemma UserComes(w: World, step: Step, from: Option<Id>, h: HandleId)
    requires WorldInv(w) && DoMove(w, Take(step, from)).Some? && h in DoMove(w, Take(step, from)).value.captured
    requires step.BeginStop? && (h == step.h || step.after == TakeFrom(h))
    requires DoMove(w, Take(step, from)).value.s.handles[h].busy == Some(step.id)
    ensures CaptiveOk(DoMove(w, Take(step, from)).value, h)
  {
    if !Destructor(w, from, step.id, step.h, step.after) { InsideKeeps(w.s, from.value, w.captured[h]); }
    KeptByStays(w.s, step, from.value, w.captured[h]);
  }

  lemma MoveKeepsCaptive(w: World, step: Step, from: Option<Id>, h: HandleId)
    requires WorldInv(w) && DoMove(w, Take(step, from)).Some? && h in DoMove(w, Take(step, from)).value.captured
    ensures CaptiveOk(DoMove(w, Take(step, from)).value, h)
  {
    var b := DoMove(w, Take(step, from)).value.s.handles[h].busy;
    assert CaptiveOk(w, h);
    BusyAfter(w.s, step, h);
    if b.Some? && b == w.s.handles[h].busy {
      UserStays(w, step, from, h, b.value);
    } else if b.Some? {
      UserComes(w, step, from, h);
    }
  }

  lemma StuckCallUntouched(w: World, step: Step, n: Id)
    requires WorldInv(w) && Do(w.s, step).Some? && n in w.caller
    requires w.s.calls[n].StopReady? && w.caller[n] in w.s.calls && w.s.calls[w.caller[n]].StopUnlocked?
    ensures n in Do(w.s, step).value.calls && Do(w.s, step).value.calls[n] == w.s.calls[n]
  {
    assert NestedOk(w, n);
    assert HoldsIndirect(w.s.calls[w.caller[n]]) && w.s.indirectLock == Some(w.caller[n]);
    if Continues(step, n) { LockedOut(w.s, step, n); }
    UntouchedCall(w.s, step, n);
  }

  lemma LockedOut(s: State, step: Step, n: Id)
    requires n in s.calls && s.calls[n].StopReady? && s.indirectLock.Some? && Continues(step, n)
    ensures Do(s, step).None?
  {
  }

  lemma MoveKeepsTrapped(w: World, step: Step, from: Option<Id>)
    requires WorldInv(w) && DoMove(w, Take(step, from)).Some?
    ensures Trapped(DoMove(w, Take(step, from)).value)
  {
    var v := DoMove(w, Take(step, from)).value;
    forall n | n in v.caller && v.caller[n] in v.s.calls && v.s.calls[v.caller[n]].StopUnlocked?
      ensures n in v.s.calls && v.s.calls[n].StopReady? && Traps(v, v.caller[n], v.s.calls[n].e.h)
    {
      var p := v.caller[n];
      if from.Some? && Begun(step) == Some(n) {
        UntouchedCall(w.s, step, p);
        MoveKeepsTrap(w, Take(step, from), p, step.h);
      } else {
        WaitingUntouched(w, step, from, n);
        StuckCallUntouched(w, step, n);
        MoveKeepsTrap(w, Take(step, from), p, w.s.calls[n].e.h);
      }
    }
  }

  lemma CaptureKeeps(w: World, h: HandleId, callback: nat)
    requires WorldInv(w) && Idle(w.s, h) && h !in w.captured
    ensures var v := w.(captured := w.captured[h := callback]); Nested(v) && Captives(v)
  {
    var v := w.(captured := w.captured[h := callback]);
    forall g | g in v.captured ensures CaptiveOk(v, g) {
      if g != h { assert CaptiveOk(w, g); }
    }
    forall n | n in v.caller ensures NestedOk(v, n) { assert NestedOk(w, n); }
  }

  lemma CaptureKept(w: World, h: HandleId, callback: nat)
    requires WorldInv(w) && DoMove(w, Capture(h, callback)).Some?
    ensures WorldInv(DoMove(w, Capture(h, callback)).value)
  {
    CaptureKeeps(w, h, callback);
    CaptureTrapped(w, h, callback);
  }

  lemma CaptureTrapped(w: World, h: HandleId, callback: nat)
    requires Trapped(w) && h !in w.captured
    ensures Trapped(w.(captured := w.captured[h := callback]))
  {
    var v := w.(captured := w.captured[h := callback]);
    forall n | n in v.caller && v.caller[n] in v.s.calls && v.s.calls[v.caller[n]].StopUnlocked?
      ensures n in v.s.calls && v.s.calls[n].StopReady? && Traps(v, v.caller[n], v.s.calls[n].e.h)
    {
      CaptureKeepsTrap(w, h, callback, v.caller[n], w.s.calls[n].e.h);
    }
  }

  lemma ShareKept(w: World, h: HandleId)
    requires WorldInv(w) && DoMove(w, Share(h)).Some?
    ensures WorldInv(DoMove(w, Share(h)).value)
  {
    var v := DoMove(w, Share(h)).value;
    forall g | g in v.captured ensures CaptiveOk(v, g) { assert CaptiveOk(w, g); }
    forall n | n in v.caller ensures NestedOk(v, n) { assert NestedOk(w, n); }
    forall n | n in v.caller && v.s.calls[v.caller[n]].StopUnlocked?
      ensures Traps(v, v.caller[n], v.s.calls[n].e.h)
    {
      MoveKeepsTrap(w, Share(h), v.caller[n], v.s.calls[n].e.h);
    }
  }

  /** Every move keeps the invariant. */
  lemma WorldKept(w: World, m: Move)
    requires WorldInv(w) && DoMove(w, m).Some?
    ensures WorldInv(DoMove(w, m).value)
  {
    match m
    case Capture(h, callback) => CaptureKept(w, h, callback);
    case Share(h) => ShareKept(w, h);
    case Take(step, from) =>
      var v := DoMove(w, m).value;
      StepKept(w.s, step);
      MoveKeepsNested(w, step, from);
      MoveKeepsTrapped(w, step, from);
      forall h | h in v.captured ensures CaptiveOk(v, h) { MoveKeepsCaptive(w, step, from, h); }
  }
}
