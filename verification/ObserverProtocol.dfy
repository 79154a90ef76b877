/** `ScopedObservableBase` used from many threads at once, as a state machine over the steps its
    operations take: drawing a ticket, taking and releasing the two locks, copying the list,
    publishing the copy, calling one observer, testing and resetting the instance. A call started
    from inside a callback is one more call in progress; which call waits for which other one is
    added by `ObserverReentry`. */
module ObserverProtocol {
  import opened Wrappers
  import opened Observers

  type Id = nat
  type HandleId = nat

  /** What a handle does once its observation has ended: it is destroyed, or takes the fields of
      another handle (move assignment). */
  datatype After = Discard | TakeFrom(src: HandleId)

  /** A notification: when it began and when it took which snapshot (as lengths of the log), how many
      observers it has passed, and which it has called with what outcome. */
  datatype Fire = Fire(mask: nat, since: nat, at: nat, snapshot: seq<Observer>, i: nat,
                       called: seq<Observer>, outcomes: seq<Option<Error>>, first: Option<Error>)

  /** The end of one observation: the handle, its ticket, and what comes after. */
  datatype Ending = Ending(h: HandleId, ticket: nat, after: After)

  /** A call in progress, by the point it has reached. */
  datatype Call =
    | AddReady(o: Observer)                                 // ticket drawn
    | AddLocked(o: Observer)                                // list lock held
    | AddBuilt(o: Observer, copy: seq<Observer>)            // copy made, list lock held
    | AddPublished(o: Observer, copy: seq<Observer>)        // copy published, list lock held
    | AddUnlocked(o: Observer, copy: seq<Observer>)         // no lock held, local copy still to be dropped
    | Returning(ticket: nat)                                // handle on its way to the caller
    | StopReady(e: Ending)
    | StopGuarded(e: Ending)                                // indirect lock held
    | StopWaiting(e: Ending)                                // instance found alive
    | StopLocked(e: Ending)                                 // both locks held
    | StopBuilt(e: Ending, before: seq<Observer>, shorter: Option<seq<Observer>>)  // list scanned, both locks held
    | StopPublished(e: Ending, before: seq<Observer>)          // both locks held
    | StopUnlocked(e: Ending, before: seq<Observer>)           // indirect lock held
    | StopFinished(e: Ending)                               // no lock held, handle still to be reset
    | FireReady(mask: nat, since: nat)
    | FireLocked(mask: nat, since: nat)                     // list lock held
    | FireTaken(f: Fire)                                    // snapshot taken, list lock held
    | Firing(f: Fire)                                       // no lock held
    | Calling(f: Fire)                                      // inside the callback of observer f.i
    | Fired(f: Fire)                                        // about to rethrow f.first, if any
    | DyingReady
    | DyingLocked                                           // indirect lock held
    | DyingReset                                            // instance reset, indirect lock held
    | DyingFreed                                            // no lock held, list still to be dropped

  datatype Update = Added(o: Observer) | Removed(ticket: nat)

  /** A ticket object. `busy` is the call that is ending its observation or moving from it. */
  datatype Handle = Handle(ticket: nat, busy: Option<Id>)

  /** Where a ticket is: with the call that drew it, or with a handle. */
  datatype Place = InCall(id: Id) | AtHandle(h: HandleId)

  datatype State = State(
    observers: seq<Observer>,
    drawn: nat,
    listLock: Option<Id>,
    indirectLock: Option<Id>,
    alive: bool,
    closing: bool,
    destroyed: bool,
    handles: map<HandleId, Handle>,
    calls: map<Id, Call>,
    // history: updates in the order in which they were published, and the place of every ticket
    log: seq<Update>,
    home: map<nat, Place>
  )

  const START: State := State([], 0, None, None, true, false, false, map[], map[], [], map[])

  datatype Step =
    | BeginAdd(id: Id, callback: nat, mask: nat, ticketed: bool)
    | BeginStop(id: Id, h: HandleId, after: After)
    | BeginFire(id: Id, mask: nat)
    | BeginDestroy(id: Id)
    | Advance(id: Id, outcome: Option<Error>)  // a call reaches its next point
    | Deliver(id: Id, h: HandleId)             // the returned ticket becomes a handle
    | FinishStop(id: Id)                       // the handle whose observation ended is reset
    | NewHandle(h: HandleId)
    | MoveHandle(src: HandleId, dst: HandleId)
    | DropEmpty(h: HandleId)
    | AssignToEmpty(h: HandleId, src: HandleId)

  // ---------------------------------------------------------------- classification of calls

  predicate HoldsList(c: Call) {
    c.AddLocked? || c.AddBuilt? || c.AddPublished? || c.StopLocked? || c.StopBuilt? || c.StopPublished? ||
    c.FireLocked? || c.FireTaken?
  }

  predicate HoldsIndirect(c: Call) {
    c.StopGuarded? || InStopObservation(c) || c.StopUnlocked? || c.DyingLocked? || c.DyingReset?
  }

  /** The call is inside `StopObservation`. */
  predicate InStopObservation(c: Call) {
    c.StopWaiting? || c.StopLocked? || c.StopBuilt? || c.StopPublished?
  }

  /** The call runs a member function of the observable on behalf of its owner. */
  predicate OwnerCall(c: Call) {
    c.AddReady? || c.AddLocked? || c.AddBuilt? || c.AddPublished? || c.AddUnlocked? || c.Returning? ||
    c.FireReady? || c.FireLocked? || c.FireTaken? || c.Firing? || c.Calling? || c.Fired?
  }

  predicate Dying(c: Call) { c.DyingReady? || c.DyingLocked? || c.DyingReset? || c.DyingFreed? }

  predicate Stopping(c: Call) {
    c.StopReady? || c.StopGuarded? || InStopObservation(c) || c.StopUnlocked? || c.StopFinished?
  }

  /** The call has removed the observer of its handle. */
  predicate HasRemoved(c: Call) { c.StopPublished? || c.StopUnlocked? || c.StopFinished? }

  /** The ticket a call of `AddTicketedObserver` has drawn; zero for other calls. */
  function DrawnBy(c: Call): nat {
    match c
    case AddReady(o) => o.ticket
    case AddLocked(o) => o.ticket
    case AddBuilt(o, _) => o.ticket
    case AddPublished(o, _) => o.ticket
    case AddUnlocked(o, _) => o.ticket
    case Returning(t) => t
    case _ => 0
  }

  /** The observer of the call's ticket is in the published list. */
  predicate HasPublished(c: Call) { c.AddPublished? || c.AddUnlocked? || c.Returning? }

  predicate Idle(s: State, h: HandleId) { h in s.handles && s.handles[h].busy == None }

  // ---------------------------------------------------------------- steps

  /** Where a call goes from a point: nowhere by itself, to its end, or to another point. */
  datatype Point = Stuck | Over | To(c: Call)

  /** The next point of a call; `outcome` is what the callback throws, for a call inside one. */
  function NextPoint(s: State, c: Call, outcome: Option<Error>): Point {
    match c
    case AddReady(o) => To(AddLocked(o))
    case AddLocked(o) => To(AddBuilt(o, s.observers + [o]))
    case AddBuilt(o, copy) => To(AddPublished(o, copy))
    case AddPublished(o, copy) => To(AddUnlocked(o, copy))
    case AddUnlocked(o, _) => if o.ticket == 0 then Over else To(Returning(o.ticket))
    case Returning(_) => Stuck
    case StopReady(e) => To(StopGuarded(e))
    case StopGuarded(e) => To(if s.alive then StopWaiting(e) else StopUnlocked(e, []))
    case StopWaiting(e) => To(StopLocked(e))
    case StopLocked(e) =>
      To(StopBuilt(e, s.observers,
                   if FindTicket(s.observers, e.ticket) < |s.observers|
                   then Some(Without(s.observers, e.ticket)) else None))
    case StopBuilt(e, before, _) => To(StopPublished(e, before))
    case StopPublished(e, before) => To(StopUnlocked(e, before))
    case StopUnlocked(e, _) => To(StopFinished(e))
    case StopFinished(_) => Stuck
    case FireReady(mask, since) => To(FireLocked(mask, since))
    case FireLocked(mask, since) => To(FireTaken(Fire(mask, since, |s.log|, s.observers, 0, [], [], None)))
    case FireTaken(f) => To(Firing(f))
    case Firing(f) =>
      if f.i >= |f.snapshot| then To(Fired(f))
      else if Wants(f.snapshot[f.i], f.mask) then To(Calling(f))
      else To(Firing(f.(i := f.i + 1)))
    case Calling(f) =>
      if f.i >= |f.snapshot| then Stuck
      else To(Firing(f.(i := f.i + 1, called := f.called + [f.snapshot[f.i]], outcomes := f.outcomes + [outcome],
                        first := if f.first == None then outcome else f.first)))
    case Fired(_) => Over
    case DyingReady => To(DyingLocked)
    case DyingLocked => To(DyingReset)
    case DyingReset => To(DyingFreed)
    case DyingFreed => Over
  }

  /** A lock as a call moves between points that hold it and points that do not. */
  function LockAfter(lock: Option<Id>, id: Id, before: bool, after: bool): Option<Id> {
    if after then Some(id) else if before then None else lock
  }

  /** The list and the log after a call leaves the point at which it publishes its copy. */
  function ListAfter(s: State, c: Call): seq<Observer> {
    match c
    case AddBuilt(_, copy) => copy
    case StopBuilt(_, _, Some(shorter)) => shorter
    case _ => s.observers
  }

  function LogAfter(s: State, c: Call): seq<Update> {
    match c
    case AddBuilt(o, _) => s.log + [Added(o)]
    case StopBuilt(e, _, Some(_)) => s.log + [Removed(e.ticket)]
    case _ => s.log
  }

  /** A call moves on. It waits while a lock it is about to take is held. */
  function DoAdvance(s: State, id: Id, outcome: Option<Error>): Option<State> {
    if id !in s.calls then None
    else
      var c := s.calls[id];
      var p := NextPoint(s, c, outcome);
      var list, indirect := p.To? && HoldsList(p.c), p.To? && HoldsIndirect(p.c);
      if p.Stuck? || (list && !HoldsList(c) && s.listLock != None) || (indirect && !HoldsIndirect(c) && s.indirectLock != None)
      then None
      else Some(s.(
        calls := if p.To? then s.calls[id := p.c] else s.calls - {id},
        listLock := LockAfter(s.listLock, id, HoldsList(c), list),
        indirectLock := LockAfter(s.indirectLock, id, HoldsIndirect(c), indirect),
        observers := ListAfter(s, c),
        log := LogAfter(s, c),
        alive := s.alive && !c.DyingLocked?,
        destroyed := s.destroyed || c.DyingFreed?))
  }

  /** `home` after a ticket has moved to handle `h`. */
  function Rehomed(home: map<nat, Place>, ticket: nat, h: HandleId): map<nat, Place> {
    if ticket == 0 then home else home[ticket := AtHandle(h)]
  }

  /** The fields of handle `src` move to `h`, and `src` is left empty; a handle moved to itself
      ends up empty, since the fields of the source are reset last. */
  function Moved(s: State, h: HandleId, src: HandleId): State
    requires src in s.handles
  {
    var t := s.handles[src].ticket;
    if h == src then s.(handles := s.handles[h := Handle(0, None)])
    else s.(handles := s.handles[h := Handle(t, None)][src := Handle(0, None)], home := Rehomed(s.home, t, h))
  }

  function DoBeginAdd(s: State, id: Id, callback: nat, mask: nat, ticketed: bool): Option<State> {
    if id in s.calls || s.closing || mask == 0 || (ticketed && s.drawn + 1 >= LIMIT) then None
    else
      var t := if ticketed then s.drawn + 1 else 0;
      Some(s.(calls := s.calls[id := AddReady(Observer(callback, t, mask))],
              drawn := if ticketed then t else s.drawn,
              home := if ticketed then s.home[t := InCall(id)] else s.home))
  }

  /** The handle, and the one it will take the fields of, are marked as in use by the call. */
  function Marked(handles: map<HandleId, Handle>, id: Id, h: HandleId, after: After): map<HandleId, Handle>
    requires h in handles && (after.TakeFrom? ==> after.src in handles)
  {
    var one := handles[h := handles[h].(busy := Some(id))];
    if after.TakeFrom? then one[after.src := one[after.src].(busy := Some(id))] else one
  }

  function DoBeginStop(s: State, id: Id, h: HandleId, after: After): Option<State> {
    if id in s.calls || !Idle(s, h) || s.handles[h].ticket == 0 || (after.TakeFrom? && !Idle(s, after.src)) then None
    else Some(s.(calls := s.calls[id := StopReady(Ending(h, s.handles[h].ticket, after))],
                 handles := Marked(s.handles, id, h, after)))
  }

  function DoDeliver(s: State, id: Id, h: HandleId): Option<State> {
    if id !in s.calls || !s.calls[id].Returning? || h in s.handles then None
    else
      var t := s.calls[id].ticket;
      Some(s.(calls := s.calls - {id}, handles := s.handles[h := Handle(t, None)], home := s.home[t := AtHandle(h)]))
  }

  /** A handle whose observation has ended is empty again, and no handle is in use by the call. */
  function Reset(s: State, id: Id, e: Ending): State {
    var emptied := s.handles[e.h := Handle(0, None)];
    var freed := if e.after.TakeFrom? && e.after.src in emptied
                 then emptied[e.after.src := emptied[e.after.src].(busy := None)] else emptied;
    s.(calls := s.calls - {id}, home := s.home - {e.ticket}, handles := freed)
  }

  function DoFinishStop(s: State, id: Id): Option<State> {
    if id !in s.calls || !s.calls[id].StopFinished? then None
    else
      var e := s.calls[id].e;
      var r := Reset(s, id, e);
      match e.after
      case Discard => Some(r.(handles := r.handles - {e.h}))
      case TakeFrom(src) => if src in r.handles then Some(Moved(r, e.h, src)) else None
  }

  function DoHandle(s: State, step: Step): Option<State> {
    match step
    case NewHandle(h) =>
      if h in s.handles then None else Some(s.(handles := s.handles[h := Handle(0, None)]))
    case MoveHandle(src, dst) =>
      if !Idle(s, src) || dst in s.handles then None else Some(Moved(s, dst, src))
    case DropEmpty(h) =>
      if !Idle(s, h) || s.handles[h].ticket != 0 then None else Some(s.(handles := s.handles - {h}))
    case AssignToEmpty(h, src) =>
      if !Idle(s, h) || s.handles[h].ticket != 0 || !Idle(s, src) then None else Some(Moved(s, h, src))
    case _ => None
  }

  /** The state after a step, or `None` when it cannot be taken. Callers owe what the source leaves
      to them: a handle is used by one call at a time, and the observable is destroyed when no call
      of its owner is in progress and none is started later. */
  function Do(s: State, step: Step): Option<State> {
    match step
    case BeginAdd(id, callback, mask, ticketed) => DoBeginAdd(s, id, callback, mask, ticketed)
    case BeginStop(id, h, after) => DoBeginStop(s, id, h, after)
    case BeginFire(id, mask) =>
      if id in s.calls || s.closing || mask == 0 then None else Some(s.(calls := s.calls[id := FireReady(mask, |s.log|)]))
    case BeginDestroy(id) =>
      if id in s.calls || s.closing || exists c :: c in s.calls && OwnerCall(s.calls[c]) then None
      else Some(s.(calls := s.calls[id := DyingReady], closing := true))
    case Advance(id, outcome) => DoAdvance(s, id, outcome)
    case Deliver(id, h) => DoDeliver(s, id, h)
    case FinishStop(id) => DoFinishStop(s, id)
    case _ => DoHandle(s, step)
  }
}
