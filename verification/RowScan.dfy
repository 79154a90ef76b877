/** `scanRows`: a capped breadth-first walk over the accessibility elements of an application,
    which may form a graph with cycles. Attribute reads are functions of the element. */
module RowScan {
  import opened Wrappers
  import opened Sequences

  type Element = int

  datatype Role = Table | Outline | Other

  /** What the attribute reads answer for each element. */
  datatype Application = Application(
    root: Element,
    windows: Option<seq<Element>>,
    identity: Element -> int,
    isRow: Element -> bool,
    labelOf: Element -> Option<string>,
    role: Element -> Role,
    visibleRows: Element -> Option<seq<Element>>,
    children: Element -> Option<seq<Element>>,
    focused: Element -> bool,
    selected: Element -> bool
  ) {
    /** Where the walk starts: the application element and its windows. */
    function Starts(): seq<Element> { [root] + OrEmpty(windows) }

    /** Where the walk goes on from an element: nowhere from a row, to the visible rows of a table
        or outline, to the children of anything else. */
    function Successors(e: Element): seq<Element> {
      if isRow(e) then []
      else if role(e) != Other then OrEmpty(visibleRows(e))
      else OrEmpty(children(e))
    }

    /** The observation an element contributes, if it is a row with a matching label. */
    function Observed(e: Element, prefix: string): Option<RowObservation> {
      if isRow(e) && labelOf(e).Some? && prefix <= labelOf(e).value
      then Some(RowObservation(e, labelOf(e).value, focused(e), selected(e)))
      else None
    }
  }

  datatype RowObservation = RowObservation(element: Element, text: string, focused: bool, selected: bool)

  function OrEmpty(s: Option<seq<Element>>): seq<Element>
  {
    match s case Some(v) => v case None => []
  }

  /** The observations of a list of elements, in order. */
  function Rows(app: Application, es: seq<Element>, prefix: string): seq<RowObservation>
  {
    if es == [] then []
    else
      var last := app.Observed(es[|es| - 1], prefix);
      Rows(app, es[..|es| - 1], prefix) + (if last.Some? then [last.value] else [])
  }

  /** A route from a start to its last element. */
  ghost predicate Route(app: Application, path: seq<Element>)
  {
    && path != [] && path[0] in app.Starts()
    && forall i :: 0 < i < |path| ==> path[i] in app.Successors(path[i - 1])
  }

  ghost predicate Reachable(app: Application, e: Element)
  {
    exists path :: Route(app, path) && path[|path| - 1] == e
  }

  /** `identity` is that of an element of the list. */
  ghost predicate Represented(app: Application, examined: seq<Element>, e: Element)
  {
    exists i :: 0 <= i < |examined| && app.identity(examined[i]) == app.identity(e)
  }

  /** Every start and every successor of a listed element shares its identity with a listed one. */
  ghost predicate Closed(app: Application, examined: seq<Element>)
  {
    && (forall e :: e in app.Starts() ==> Represented(app, examined, e))
    && (forall x, e :: x in examined && e in app.Successors(x) ==> Represented(app, examined, e))
  }

  ghost predicate DistinctIdentities(app: Application, es: seq<Element>)
  {
    forall i, j :: 0 <= i < j < |es| ==> app.identity(es[i]) != app.identity(es[j])
  }

  /** What the examined elements, in this order, append to the queue. */
  ghost function Appended(app: Application, examined: seq<Element>): seq<Element>
  {
    if examined == [] then []
    else Appended(app, examined[..|examined| - 1]) + app.Successors(examined[|examined| - 1])
  }

  /** The queue once these elements were examined: first in, first out. */
  ghost function Worklist(app: Application, examined: seq<Element>): seq<Element>
  {
    app.Starts() + Appended(app, examined)
  }

  /** The first element of each identity, in order. */
  ghost function Firsts(app: Application, es: seq<Element>): seq<Element>
  {
    if es == [] then []
    else
      var firsts, last := Firsts(app, es[..|es| - 1]), es[|es| - 1];
      if Represented(app, firsts, last) then firsts else firsts + [last]
  }

  lemma WorklistGrows(app: Application, seen: seq<Element>, element: Element)
    ensures Worklist(app, seen + [element]) == Worklist(app, seen) + app.Successors(element)
  {
    assert (seen + [element])[..|seen|] == seen;
  }

  lemma FirstsStep(app: Application, queue: seq<Element>, cursor: nat)
    requires cursor < |queue|
    ensures Firsts(app, queue[..cursor + 1]) ==
            if Represented(app, Firsts(app, queue[..cursor]), queue[cursor]) then Firsts(app, queue[..cursor])
            else Firsts(app, queue[..cursor]) + [queue[cursor]]
  {
    assert queue[..cursor + 1][..cursor] == queue[..cursor];
  }

  /** `seen` lists the examined elements in the order of examination: the first ones of each identity
      among the `taken` foremost in the queue. */
  method ScanRows(app: Application, targetPrefix: string, maximumNodes: int)
    returns (rows: seq<RowObservation>, nodesExamined: nat, truncated: bool, ghost seen: seq<Element>, ghost taken: nat)
    ensures taken <= |Worklist(app, seen)| && seen == Firsts(app, Worklist(app, seen)[..taken])
    ensures truncated <==> taken < |Worklist(app, seen)|
    ensures rows == Rows(app, seen, targetPrefix)
    ensures nodesExamined == |seen| && DistinctIdentities(app, seen)
    ensures AllReachable(app, seen)
    ensures nodesExamined <= maximumNodes || nodesExamined == 0
    ensures truncated ==> nodesExamined >= maximumNodes
    ensures !truncated ==> Closed(app, seen)
  {
    var queue := app.Starts();
    StartsReachable(app);
    var visited: set<int> := {};
    var cursor, examined := 0, 0;
    rows, seen := [], [];
    while cursor < |queue| && examined < maximumNodes
      invariant 0 <= cursor <= |queue|
      invariant examined == |seen| && (examined <= maximumNodes || examined == 0)
      invariant rows == Rows(app, seen, targetPrefix)
      invariant visited == Identities(app, seen)
      invariant Walking(app, queue, cursor, seen)
      decreases maximumNodes - examined, |queue| - cursor
    {
      var element := queue[cursor];
      ghost var before, waiting := seen, queue;
      cursor := cursor + 1;
      var identity := app.identity(element);
      if identity in visited {
        Passed(app, queue, cursor - 1, seen);
        continue;
      }
      visited := visited + {identity};
      examined := examined + 1;
      seen := seen + [element];
      IdentitiesSnoc(app, before, element);
      assert seen[..|seen| - 1] == before;

      if app.isRow(element) {
        if app.labelOf(element).Some? && targetPrefix <= app.labelOf(element).value {
          rows := rows + [RowObservation(element, app.labelOf(element).value, app.focused(element), app.selected(element))];
        }
      } else if app.role(element) == Table || app.role(element) == Outline {
        queue := queue + OrEmpty(app.visibleRows(element));
      } else {
        queue := queue + OrEmpty(app.children(element));
      }
      assert queue == waiting + app.Successors(element);
      Examined(app, waiting, cursor - 1, before);
    }
    truncated := cursor < |queue|;
    nodesExamined, taken := examined, cursor;
    WalkEnds(app, queue, cursor, seen);
  }

  /** `cursor` elements of the queue are taken and those in `seen` examined. */
  ghost predicate Walking(app: Application, queue: seq<Element>, cursor: nat, seen: seq<Element>)
  {
    && queue == Worklist(app, seen) && AllReachable(app, queue)
    && cursor <= |queue| && seen == Firsts(app, queue[..cursor])
  }

  lemma Passed(app: Application, queue: seq<Element>, cursor: nat, seen: seq<Element>)
    requires Walking(app, queue, cursor, seen) && cursor < |queue|
    requires app.identity(queue[cursor]) in Identities(app, seen)
    ensures Walking(app, queue, cursor + 1, seen)
  {
    FirstsStep(app, queue, cursor);
  }

  lemma Examined(app: Application, queue: seq<Element>, cursor: nat, seen: seq<Element>)
    requires Walking(app, queue, cursor, seen) && cursor < |queue|
    requires app.identity(queue[cursor]) !in Identities(app, seen)
    ensures Walking(app, queue + app.Successors(queue[cursor]), cursor + 1, seen + [queue[cursor]])
  {
    var element := queue[cursor];
    var longer := queue + app.Successors(element);
    FirstsStep(app, queue, cursor);
    QueueGrows(app, queue, element);
    WorklistGrows(app, seen, element);
    assert longer[..cursor + 1] == queue[..cursor + 1];
  }

  lemma WalkEnds(app: Application, queue: seq<Element>, cursor: nat, seen: seq<Element>)
    requires Walking(app, queue, cursor, seen)
    ensures DistinctIdentities(app, seen) && AllReachable(app, seen)
    ensures cursor == |queue| ==> Closed(app, seen)
  {
    FirstsExact(app, queue[..cursor]);
    if cursor == |queue| {
      assert queue[..cursor] == queue;
      WorkedOff(app, seen);
    }
  }

  ghost predicate AllReachable(app: Application, es: seq<Element>)
  {
    forall e :: e in es ==> Reachable(app, e)
  }

  ghost function Identities(app: Application, es: seq<Element>): set<int>
  {
    set i | 0 <= i < |es| :: app.identity(es[i])
  }

  lemma IdentitiesSnoc(app: Application, es: seq<Element>, e: Element)
    ensures Identities(app, es + [e]) == Identities(app, es) + {app.identity(e)}
  {
    var more := es + [e];
    assert forall i :: 0 <= i < |es| ==> more[i] == es[i];
    assert more[|es|] == e;
  }

  /** The first elements have distinct identities, are listed and represent the whole list. */
  lemma {:induction false} FirstsExact(app: Application, es: seq<Element>)
    ensures DistinctIdentities(app, Firsts(app, es))
    ensures forall e :: e in Firsts(app, es) ==> e in es
    ensures forall e :: e in es ==> Represented(app, Firsts(app, es), e)
  {
    if es != [] {
      var n := |es| - 1;
      FirstsExact(app, es[..n]);
      StillRepresented(app, Firsts(app, es[..n]), es[n]);
      assert es == es[..n] + [es[n]];
    }
  }

  lemma {:induction false} AppendedExact(app: Application, es: seq<Element>, x: Element, e: Element)
    requires x in es && e in app.Successors(x)
    ensures e in Appended(app, es)
  {
    var n := |es| - 1;
    if es[n] != x {
      assert es == es[..n] + [es[n]];
      AppendedExact(app, es[..n], x, e);
    }
  }

  /** Once the queue is worked off nothing is left out. */
  lemma WorkedOff(app: Application, seen: seq<Element>)
    requires seen == Firsts(app, Worklist(app, seen))
    ensures Closed(app, seen)
  {
    FirstsExact(app, Worklist(app, seen));
    forall x, e | x in seen && e in app.Successors(x) ensures Represented(app, seen, e) {
      AppendedExact(app, seen, x, e);
    }
  }

  lemma StartsReachable(app: Application)
    ensures AllReachable(app, app.Starts())
  {
    forall e | e in app.Starts() ensures Reachable(app, e) {
      assert Route(app, [e]);
    }
  }

  lemma StillRepresented(app: Application, seen: seq<Element>, element: Element)
    ensures Represented(app, seen + [element], element)
    ensures forall e :: Represented(app, seen, e) ==> Represented(app, seen + [element], e)
  {
    assert (seen + [element])[|seen|] == element;
    forall e | Represented(app, seen, e) ensures Represented(app, seen + [element], e) {
      var i :| 0 <= i < |seen| && app.identity(seen[i]) == app.identity(e);
      assert (seen + [element])[i] == seen[i];
    }
  }

  lemma QueueGrows(app: Application, queue: seq<Element>, element: Element)
    requires AllReachable(app, queue) && element in queue
    ensures AllReachable(app, queue + app.Successors(element))
  {
    forall e | e in app.Successors(element) ensures Reachable(app, e) {
      var path :| Route(app, path) && path[|path| - 1] == element;
      assert Route(app, path + [e]);
    }
  }

  // ---------------------------------------------------------------- reachability in terms of the attributes

  /** The walk goes from one element to another: not from a row; from a table or outline to its visible
      rows; from anything else to its children. */
  ghost predicate LeadsTo(app: Application, x: Element, e: Element)
  {
    && !app.isRow(x)
    && ((app.role(x) == Table || app.role(x) == Outline) ==> app.visibleRows(x).Some? && e in app.visibleRows(x).value)
    && (app.role(x) == Other ==> app.children(x).Some? && e in app.children(x).value)
  }

  ghost predicate IsStart(app: Application, e: Element)
  {
    e == app.root || (app.windows.Some? && e in app.windows.value)
  }

  lemma ReachedFrom(app: Application, e: Element)
    requires Reachable(app, e)
    ensures IsStart(app, e) || exists x :: Reachable(app, x) && LeadsTo(app, x, e)
  {
    var path :| Route(app, path) && path[|path| - 1] == e;
    if |path| > 1 {
      var shorter := path[..|path| - 1];
      assert Route(app, shorter);
      assert Reachable(app, shorter[|shorter| - 1]) && LeadsTo(app, shorter[|shorter| - 1], e);
    }
  }

  lemma ReachesOn(app: Application, x: Element, e: Element)
    requires Reachable(app, x) && LeadsTo(app, x, e)
    ensures Reachable(app, e)
  {
    var path :| Route(app, path) && path[|path| - 1] == x;
    assert Route(app, path + [e]);
  }

  /** An element is reachable exactly when it is the application, one of its windows, or led to by a
      reachable one. */
  lemma ReachableIff(app: Application, e: Element)
    ensures Reachable(app, e) <==> IsStart(app, e) || exists x :: Reachable(app, x) && LeadsTo(app, x, e)
  {
    if Reachable(app, e) { ReachedFrom(app, e); }
    if IsStart(app, e) { StartsReachable(app); }
    if x :| Reachable(app, x) && LeadsTo(app, x, e) { ReachesOn(app, x, e); }
  }

  /** Whatever holds of the starts and is passed on by what leads to something holds of all that is
      reachable. */
  lemma {:induction false} RouteHolds(app: Application, holds: Element -> bool, path: seq<Element>)
    requires Route(app, path) && (forall e :: IsStart(app, e) ==> holds(e))
    requires forall x, e :: holds(x) && LeadsTo(app, x, e) ==> holds(e)
    ensures holds(path[|path| - 1])
    decreases |path|
  {
    if |path| == 1 {
      assert IsStart(app, path[0]);
    } else {
      var shorter := path[..|path| - 1];
      RouteHolds(app, holds, shorter);
      assert LeadsTo(app, shorter[|shorter| - 1], path[|path| - 1]);
    }
  }

  lemma ReachableLeast(app: Application, holds: Element -> bool, e: Element)
    requires Reachable(app, e) && (forall s :: IsStart(app, s) ==> holds(s))
    requires forall x, y :: holds(x) && LeadsTo(app, x, y) ==> holds(y)
    ensures holds(e)
  {
    var path :| Route(app, path) && path[|path| - 1] == e;
    RouteHolds(app, holds, path);
  }

  /** The observations are those of the elements at the positions `ps`, which are all that contribute one. */
  ghost predicate ObservedAt(app: Application, es: seq<Element>, prefix: string, rows: seq<RowObservation>, ps: seq<nat>)
  {
    && |rows| == |ps| && Increasing(ps) && (forall i :: 0 <= i < |ps| ==> ps[i] < |es|)
    && (forall p: nat :: p in ps <==> p < |es| && app.Observed(es[p], prefix).Some?)
    && (forall i :: 0 <= i < |ps| ==> Some(rows[i]) == app.Observed(es[ps[i]], prefix))
  }

  lemma ObservedNext(app: Application, es: seq<Element>, prefix: string, rows: seq<RowObservation>, ps: seq<nat>)
    requires es != [] && ObservedAt(app, es[..|es| - 1], prefix, rows, ps)
    ensures var last := app.Observed(es[|es| - 1], prefix);
            if last.Some? then ObservedAt(app, es, prefix, rows + [last.value], ps + [|es| - 1])
            else ObservedAt(app, es, prefix, rows, ps)
  {
    assert forall p :: 0 <= p < |es| - 1 ==> es[..|es| - 1][p] == es[p];
  }

  /** The observations come in the order of examination, one for each matching row. */
  lemma {:induction false} RowsInOrder(app: Application, es: seq<Element>, prefix: string) returns (ps: seq<nat>)
    ensures ObservedAt(app, es, prefix, Rows(app, es, prefix), ps)
  {
    ps := [];
    if es != [] {
      ps := RowsInOrder(app, es[..|es| - 1], prefix);
      ObservedNext(app, es, prefix, Rows(app, es[..|es| - 1], prefix), ps);
      if app.Observed(es[|es| - 1], prefix).Some? {
        ps := ps + [|es| - 1];
      } else {
        assert Rows(app, es, prefix) == Rows(app, es[..|es| - 1], prefix);
      }
    }
  }

  /** The observation of a row holds the row, its whole label, and whether it is focused and selected. */
  lemma ObservedExact(app: Application, e: Element, prefix: string, r: RowObservation)
    ensures app.Observed(e, prefix) == Some(r) <==>
            (&& app.isRow(e) && app.labelOf(e) == Some(r.text) && prefix <= r.text
             && r.element == e && (r.focused <==> app.focused(e)) && (r.selected <==> app.selected(e)))
  {
  }

  /** No two reachable elements share an identity. */
  ghost predicate TellsApart(app: Application)
  {
    forall x, y :: Reachable(app, x) && Reachable(app, y) && app.identity(x) == app.identity(y) ==> x == y
  }

  lemma RepresentedSeen(app: Application, seen: seq<Element>, e: Element)
    requires TellsApart(app) && Reachable(app, e) && AllReachable(app, seen)
    requires Represented(app, seen, e)
    ensures e in seen
  {
    var i :| 0 <= i < |seen| && app.identity(seen[i]) == app.identity(e);
    assert seen[i] in seen && Reachable(app, seen[i]) && seen[i] == e;
  }

  ghost predicate ExactlyReachable(app: Application, seen: seq<Element>)
  {
    forall e :: e in seen <==> Reachable(app, e)
  }

  /** A walk that was not truncated examined exactly the reachable elements if and only if
      identities tell these apart. */
  lemma UntruncatedIsReachable(app: Application, seen: seq<Element>)
    requires Closed(app, seen) && DistinctIdentities(app, seen) && AllReachable(app, seen)
    ensures ExactlyReachable(app, seen) <==> TellsApart(app)
  {
    if TellsApart(app) {
      forall e | Reachable(app, e) ensures e in seen {
        var path :| Route(app, path) && path[|path| - 1] == e;
        RouteSeen(app, seen, path);
      }
    }
  }

  /** The observations are then exactly those of the reachable matching rows. */
  lemma RowsAreReachableMatches(app: Application, seen: seq<Element>, prefix: string)
    requires ExactlyReachable(app, seen)
    ensures forall r :: r in Rows(app, seen, prefix) <==>
                        (&& Reachable(app, r.element) && app.isRow(r.element)
                         && app.labelOf(r.element) == Some(r.text) && prefix <= r.text
                         && (r.focused <==> app.focused(r.element)) && (r.selected <==> app.selected(r.element)))
  {
    RowsExact(app, seen, prefix);
    forall r: RowObservation ensures app.Observed(r.element, prefix) == Some(r) <==>
                     (&& app.isRow(r.element) && app.labelOf(r.element) == Some(r.text) && prefix <= r.text
                      && (r.focused <==> app.focused(r.element)) && (r.selected <==> app.selected(r.element)))
    {
      ObservedExact(app, r.element, prefix, r);
    }
  }

  lemma {:induction false} RouteSeen(app: Application, seen: seq<Element>, path: seq<Element>)
    requires Closed(app, seen) && Route(app, path) && AllReachable(app, seen)
    requires TellsApart(app)
    ensures path[|path| - 1] in seen
    decreases |path|
  {
    var e := path[|path| - 1];
    if |path| > 1 {
      var shorter := path[..|path| - 1];
      RouteSeen(app, seen, shorter);
      assert Represented(app, seen, e);
    }
    assert Reachable(app, e);
    RepresentedSeen(app, seen, e);
  }

  lemma {:induction false} RowsExact(app: Application, es: seq<Element>, prefix: string)
    ensures forall r :: r in Rows(app, es, prefix) <==> r.element in es && app.Observed(r.element, prefix) == Some(r)
  {
    if es != [] {
      var n := |es| - 1;
      RowsExact(app, es[..n], prefix);
      assert es == es[..n] + [es[n]];
    }
  }
}
