/** Where references to callbacks are dropped, and which observer a removal drops. */
module ObserverDrops {
  import opened Wrappers
  import opened Observers
  import opened ObserverProtocol
  import opened ObserverInvariant
  import opened ObserverReentry
  import opened ObserverNesting
  import opened ObserverDeadlock

  /** The points named as such are the only ones where the last reference to a callback can go. */
  lemma OnlyDropsLose(s: State, id: Id, outcome: Option<Error>, callback: nat)
    requires Inv(s) && DoAdvance(s, id, outcome).Some?
    requires Kept(s, callback) && !Kept(DoAdvance(s, id, outcome).value, callback)
    ensures Orphaned(s, id, callback)
  {
    forall other | other != id ensures !KeptBy(s, other, callback) {
      if KeptBy(s, other, callback) { KeptByStays(s, Advance(id, outcome), other, callback); }
    }
    if KeptBy(s, id, callback) && !AtDrop(s.calls[id]) { ActorKeeps(s, id, outcome, callback); }
    if Published(s, callback) { PublishedKept(s, id, outcome, callback); }
  }

  /** A call that is not dropping anything goes on referring to what it referred to. */
  lemma HeldKept(s: State, c: Call, outcome: Option<Error>, callback: nat)
    requires !AtDrop(c) && !NextPoint(s, c, outcome).Stuck? && Mentions(Held(c), callback)
    ensures NextPoint(s, c, outcome).To? && Mentions(Held(NextPoint(s, c, outcome).c), callback)
  {
    if c.AddLocked? { MentionsJoin(s.observers + [c.o], [c.o], callback); }
  }

  lemma ActorKeeps(s: State, id: Id, outcome: Option<Error>, callback: nat)
    requires DoAdvance(s, id, outcome).Some? && KeptBy(s, id, callback) && !AtDrop(s.calls[id])
    ensures KeptBy(DoAdvance(s, id, outcome).value, id, callback)
  {
    HeldKept(s, s.calls[id], outcome, callback);
  }

  /** A removal, and the end of the observable, go on referring to what they take out of the list. */
  lemma TakerKeeps(s: State, id: Id, outcome: Option<Error>, callback: nat)
    requires DoAdvance(s, id, outcome).Some? && Mentions(s.observers, callback)
    requires (s.calls[id].StopBuilt? && s.calls[id].before == s.observers) || s.calls[id].DyingReset?
    ensures KeptBy(DoAdvance(s, id, outcome).value, id, callback)
  {
  }

  /** A published callback stays published, unless one of these goes on referring to it. */
  lemma PublishedKept(s: State, id: Id, outcome: Option<Error>, callback: nat)
    requires ListInv(s) && DoAdvance(s, id, outcome).Some? && Published(s, callback)
    ensures Kept(DoAdvance(s, id, outcome).value, callback)
  {
    assert CopyOk(s.observers, s.calls[id]);
    if s.calls[id].StopBuilt? || s.calls[id].DyingReset? {
      TakerKeeps(s, id, outcome, callback);
    } else {
      StaysPublished(s, id, outcome, callback);
    }
  }

  lemma StaysPublished(s: State, id: Id, outcome: Option<Error>, callback: nat)
    requires DoAdvance(s, id, outcome).Some? && Published(s, callback) && CopyOk(s.observers, s.calls[id])
    requires !s.calls[id].StopBuilt? && !s.calls[id].DyingReset?
    ensures Published(DoAdvance(s, id, outcome).value, callback)
  {
    if s.calls[id].AddBuilt? { MentionsJoin(s.observers, [s.calls[id].o], callback); }
  }

  // ---------------------------------------------------------------- the dropped observer

  /** Of the list a removal started from only the removed observer is not published any more. */
  ghost predicate OnlyRemoved(s: State, e: Ending, before: seq<Observer>) {
    && (before != [] ==> s.alive)
    && forall o :: o in before ==> o.ticket == e.ticket || o in s.observers
  }

  ghost predicate RemovalOk(s: State, c: Call) {
    match c
    case StopPublished(e, before) => OnlyRemoved(s, e, before)
    case StopUnlocked(e, before) => OnlyRemoved(s, e, before)
    case _ => true
  }

  ghost predicate RemovalsInv(s: State) {
    forall id :: id in s.calls ==> RemovalOk(s, s.calls[id])
  }

  lemma WithoutOthers(list: seq<Observer>, ticket: nat)
    ensures forall o :: o in list ==> o.ticket == ticket || o in Without(list, ticket)
  {
    var i := FindTicket(list, ticket);
    if i < |list| {
      assert list == list[..i] + ([list[i]] + list[i + 1..]);
    }
  }

  /** The call that advances itself. */
  lemma RemoverAdvances(s: State, id: Id, outcome: Option<Error>)
    requires Inv(s) && RemovalsInv(s) && DoAdvance(s, id, outcome).Some? && id in DoAdvance(s, id, outcome).value.calls
    ensures var t := DoAdvance(s, id, outcome).value; RemovalOk(t, t.calls[id])
  {
    var c := s.calls[id];
    assert CopyOk(s.observers, c) && LifeOk(s, c) && RemovalOk(s, c);
    if c.StopBuilt? { WithoutOthers(s.observers, c.e.ticket); }
  }

  /** The others, which hold the indirect lock, are not disturbed. */
  lemma RemoversUndisturbed(s: State, id: Id, outcome: Option<Error>, q: Id)
    requires Inv(s) && RemovalsInv(s) && DoAdvance(s, id, outcome).Some? && q != id && q in s.calls
    ensures RemovalOk(DoAdvance(s, id, outcome).value, s.calls[q])
  {
    var c, d := s.calls[id], s.calls[q];
    assert CopyOk(s.observers, c) && RemovalOk(s, d);
    if d.StopPublished? || d.StopUnlocked? {
      assert HoldsIndirect(d) && s.indirectLock == Some(q) && !HoldsIndirect(c);
    }
  }

  lemma StepKeepsRemovals(s: State, step: Step)
    requires Inv(s) && RemovalsInv(s) && Do(s, step).Some?
    ensures RemovalsInv(Do(s, step).value)
  {
    var t := Do(s, step).value;
    if step.Advance? {
      forall q | q in t.calls ensures RemovalOk(t, t.calls[q]) {
        if q == step.id { RemoverAdvances(s, q, step.outcome); } else { RemoversUndisturbed(s, step.id, step.outcome, q); }
      }
    } else {
      RestKeepsRemovals(s, step);
    }
  }

  lemma RestKeepsRemovals(s: State, step: Step)
    requires RemovalsInv(s) && Do(s, step).Some? && !step.Advance?
    ensures RemovalsInv(Do(s, step).value)
  {
    var t := Do(s, step).value;
    StepQuiet(s, step);
    forall id | id in t.calls ensures RemovalOk(t, t.calls[id]) {
      if id in s.calls && t.calls[id] == s.calls[id] { assert RemovalOk(s, s.calls[id]); }
    }
  }

  lemma {:induction false} WorldsKeepRemovals(moves: seq<Move>)
    requires RunFrom(EMPTY, moves).Some?
    ensures RemovalsInv(RunFrom(EMPTY, moves).value.s)
  {
    if moves != [] {
      var n := |moves| - 1;
      WorldsKeepRemovals(moves[..n]);
      WorldsKeep(moves[..n]);
      if moves[n].Take? { StepKeepsRemovals(RunFrom(EMPTY, moves[..n]).value.s, moves[n].step); }
    }
  }

  lemma ListPublishes(s: State, o: Observer)
    requires LifeInv(s) && s.alive && o in s.observers
    ensures Published(s, o.callback)
  {
    var k :| 0 <= k < |s.observers| && s.observers[k] == o;
    forall id | id in s.calls ensures !s.calls[id].DyingFreed? { assert LifeOk(s, s.calls[id]); }
  }

  /** The ticket a blocked removal would have to destroy is owned by the very observer it removed. */
  lemma LastOwnerIsRemoved(moves: seq<Move>, p: Id, h: HandleId)
    requires RunFrom(EMPTY, moves).Some? && Traps(RunFrom(EMPTY, moves).value, p, h)
    ensures var w := RunFrom(EMPTY, moves).value;
            var c := w.s.calls[p];
            exists o :: o in c.before && o.ticket == c.e.ticket && o.callback == w.captured[h] && o !in w.s.observers
  {
    var w := RunFrom(EMPTY, moves).value;
    var c, callback := w.s.calls[p], w.captured[h];
    WorldsKeep(moves);
    WorldsKeepRemovals(moves);
    assert RemovalOk(w.s, c) && LifeInv(w.s);
    var i :| 0 <= i < |c.before| && c.before[i].callback == callback;
    var o := c.before[i];
    if o in w.s.observers { ListPublishes(w.s, o); }
    assert o in c.before;
  }
}
