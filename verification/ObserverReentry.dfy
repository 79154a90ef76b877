/** Calls made from inside other calls, and tickets owned by callbacks: the observer protocol where a
    call waits for those it has made, and where dropping the last reference to a callback destroys the
    tickets it owns at that very point, be a lock held there or not. */
module ObserverReentry {
  import opened Wrappers
  import opened Observers
  import opened ObserverProtocol

  /** The protocol's state, the call each nested call was made from, and the handles that are owned by
      the captured state of a callback alone (named by the callback). A call has a greater number than
      the one it was made from. */
  datatype World = World(s: State, caller: map<Id, Id>, captured: map<HandleId, nat>)

  const EMPTY: World := World(START, map[], map[])

  datatype Move =
    | Take(step: Step, from: Option<Id>)   // a step; a call begins inside call `from`, if any
    | Capture(h: HandleId, callback: nat)  // the handle is given away to the callback
    | Share(h: HandleId)                   // the running callback makes its handle known outside

  // ---------------------------------------------------------------- references

  predicate Mentions(list: seq<Observer>, callback: nat) {
    exists i :: 0 <= i < |list| && list[i].callback == callback
  }

  /** The lists and observers a call refers to. */
  function Held(c: Call): seq<Observer> {
    match c
    case AddReady(o) => [o]
    case AddLocked(o) => [o]
    case AddBuilt(o, copy) => copy + [o]
    case AddPublished(o, copy) => copy + [o]
    case AddUnlocked(o, copy) => copy + [o]
    case StopBuilt(_, before, _) => before
    case StopPublished(_, before) => before
    case StopUnlocked(_, before) => before
    case FireTaken(f) => f.snapshot
    case Firing(f) => f.snapshot
    case Calling(f) => f.snapshot
    case Fired(f) => f.snapshot
    case _ => []
  }

  /** Whether a call in progress refers to the callback; the call that frees the observable refers to
      the published list. */
  predicate KeptBy(s: State, id: Id, callback: nat) {
    id in s.calls &&
    (Mentions(Held(s.calls[id]), callback) || (s.calls[id].DyingFreed? && Mentions(s.observers, callback)))
  }

  /** The published list refers to the callback, as long as nobody is freeing it. */
  predicate Published(s: State, callback: nat) {
    !s.destroyed && Mentions(s.observers, callback) && forall id :: id in s.calls ==> !s.calls[id].DyingFreed?
  }

  ghost predicate Kept(s: State, callback: nat) {
    Published(s, callback) || exists id :: KeptBy(s, id, callback)
  }

  /** The points at which a call drops its references. */
  predicate AtDrop(c: Call) { c.AddUnlocked? || c.StopUnlocked? || c.Fired? || c.DyingFreed? }

  /** The call is about to drop the last reference to the callback. */
  ghost predicate Orphaned(s: State, id: Id, callback: nat) {
    && KeptBy(s, id, callback) && AtDrop(s.calls[id])
    && !Published(s, callback) && forall other :: other != id ==> !KeptBy(s, other, callback)
  }

  /** The callback the call is inside of. */
  predicate Inside(c: Call, callback: nat) {
    c.Calling? && c.f.i < |c.f.snapshot| && c.f.snapshot[c.f.i].callback == callback
  }

  ghost predicate Running(s: State, callback: nat) {
    exists id :: id in s.calls && Inside(s.calls[id], callback)
  }

  // ---------------------------------------------------------------- moves

  /** The call waits for one it has made. */
  ghost predicate Waits(w: World, id: Id) {
    exists n :: n in w.caller && w.caller[n] == id
  }

  /** The handle is owned by a callback the call is about to orphan. */
  ghost predicate OrphanOf(w: World, id: Id, h: HandleId) {
    h in w.captured && Orphaned(w.s, id, w.captured[h])
  }

  /** Outside a callback only what it does not own can be used. */
  ghost predicate Touchable(w: World, h: HandleId) {
    h in w.captured ==> Running(w.s, w.captured[h])
  }

  /** A call made inside call `from` can use a handle. */
  ghost predicate Usable(w: World, from: Option<Id>, h: HandleId) {
    h in w.captured ==> from.Some? && from.value in w.s.calls && Inside(w.s.calls[from.value], w.captured[h])
  }

  /** Code of the program runs there: outside all calls, or inside the callback of `from`. */
  ghost predicate UserCode(w: World, from: Option<Id>, id: Id) {
    match from
    case None => true
    case Some(f) => f in w.s.calls && w.s.calls[f].Calling? && !Waits(w, f) && f < id
  }

  /** The destructor of a ticket runs inside a call that drops the callback which owns it. */
  ghost predicate Destructor(w: World, from: Option<Id>, id: Id, h: HandleId, after: After) {
    from.Some? && after.Discard? && from.value < id && !Waits(w, from.value) && OrphanOf(w, from.value, h)
  }

  /** No callback that owns handles is added again once it has been added, unless it does so itself. */
  ghost predicate Addable(w: World, callback: nat) {
    (exists h :: h in w.captured && w.captured[h] == callback) ==> !Kept(w.s, callback) || Running(w.s, callback)
  }

  ghost predicate May(w: World, step: Step, from: Option<Id>) {
    match step
    case BeginAdd(id, callback, _, _) => UserCode(w, from, id) && Addable(w, callback)
    case BeginFire(id, _) => UserCode(w, from, id)
    case BeginDestroy(id) => UserCode(w, from, id)
    case BeginStop(id, h, after) =>
      || Destructor(w, from, id, h, after)
      || (UserCode(w, from, id) && Usable(w, from, h) && (after.TakeFrom? ==> Usable(w, from, after.src)))
    case Advance(id, _) => from == None && !Waits(w, id) && forall h :: !OrphanOf(w, id, h)
    case Deliver(id, _) => from == None && !Waits(w, id)
    case FinishStop(id) => from == None && !Waits(w, id)
    case NewHandle(_) => from == None
    case MoveHandle(src, _) => from == None && Touchable(w, src)
    case AssignToEmpty(h, src) => from == None && Touchable(w, h) && Touchable(w, src)
    case DropEmpty(h) => from == None && (Touchable(w, h) || exists id :: OrphanOf(w, id, h) && !Waits(w, id))
  }

  function Begun(step: Step): Option<Id> {
    match step
    case BeginAdd(id, _, _, _) => Some(id)
    case BeginFire(id, _) => Some(id)
    case BeginDestroy(id) => Some(id)
    case BeginStop(id, _, _) => Some(id)
    case _ => None
  }

  /** The nesting once the protocol is in state `t`. */
  function CallerAfter(w: World, t: State, step: Step, from: Option<Id>): map<Id, Id> {
    var begun := if from.Some? && Begun(step).Some? then w.caller[Begun(step).value := from.value] else w.caller;
    map id | id in begun && id in t.calls :: begun[id]
  }

  ghost function DoMove(w: World, m: Move): Option<World> {
    match m
    case Capture(h, callback) =>
      if Idle(w.s, h) && h !in w.captured then Some(w.(captured := w.captured[h := callback])) else None
    case Share(h) =>
      if h in w.captured && Running(w.s, w.captured[h]) then Some(w.(captured := w.captured - {h})) else None
    case Take(step, from) =>
      if !May(w, step, from) then None
      else
        match Do(w.s, step)
        case None => None
        case Some(t) => Some(World(t, CallerAfter(w, t, step, from),
                                   map h | h in w.captured && h in t.handles :: w.captured[h]))
  }

  /** The world a sequence of moves leads to, if all of them can be made. */
  ghost function RunFrom(w: World, moves: seq<Move>): Option<World> {
    if moves == [] then Some(w)
    else
      match RunFrom(w, moves[..|moves| - 1])
      case None => None
      case Some(v) => DoMove(v, moves[|moves| - 1])
  }
}
