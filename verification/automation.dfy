/** The staleness sweep: move every issue of a workflow state that has not
    been updated for longer than a threshold into another state. The
    tracker is reduced to data — its workflow states and its issues — and
    the sweep to the list of update requests it sends, in the order it
    sends them. */
module Automation {
  import opened Wrappers
  import opened Time

  /** A workflow state as the tracker lists it. Several teams may each have
      a state of the same name. */
  datatype WorkflowState = WorkflowState(id: string, name: string)

  /** An issue as the tracker returns it. `updatedAt` is an instant in epoch
      milliseconds; the snooze and the description are carried to show that
      the sweep does not look at them. */
  datatype Issue = Issue(
    id: string,
    stateId: string,
    updatedAt: int,
    snoozedUntil: Option<int>,
    description: string)

  /** One sweep: move issues of state `from` to state `to` once they have
      gone unchanged for longer than `after`. */
  datatype MoveParams = MoveParams(from: string, to: string, after: Duration)

  /** An `issueUpdate` call. Its input object sets the state and nothing
      else; the state is `None` (JavaScript's `undefined`) when `to` names no
      workflow state. */
  datatype UpdateRequest = UpdateRequest(issueId: string, stateId: Option<string>)

  // ---------------------------------------------------------------------
  // Order-preserving selection
  // ---------------------------------------------------------------------

  /** The elements of `xs` satisfying `p`, in their original order. */
  function Filter<T(==,!new)>(xs: seq<T>, p: T -> bool): (r: seq<T>)
    ensures forall x :: x in r <==> x in xs && p(x)
    ensures |r| <= |xs|
  {
    if |xs| == 0 then []
    else (if p(xs[0]) then [xs[0]] else []) + Filter(xs[1..], p)
  }

  /** Selection distributes over concatenation, so it keeps the input's
      order. */
  lemma {:induction false} FilterAppend<T(!new)>(a: seq<T>, b: seq<T>, p: T -> bool)
    ensures Filter(a + b, p) == Filter(a, p) + Filter(b, p)
  {
    if |a| == 0 {
      assert a + b == b;
    } else {
      assert (a + b)[1..] == a[1..] + b;
      FilterAppend(a[1..], b, p);
    }
  }

  // ---------------------------------------------------------------------
  // Workflow states
  // ---------------------------------------------------------------------

  /** Node `i` is the last one named `name`. */
  ghost predicate LastNamed(nodes: seq<WorkflowState>, i: int, name: string) {
    && 0 <= i < |nodes|
    && nodes[i].name == name
    && forall j :: i < j < |nodes| ==> nodes[j].name != name
  }

  /** `m` maps every listed name, and only those, to the id of the last
      state listed under it. */
  ghost predicate IsStateTable(nodes: seq<WorkflowState>, m: map<string, string>) {
    && (forall i :: 0 <= i < |nodes| ==> nodes[i].name in m)
    && forall name :: name in m ==> exists i :: LastNamed(nodes, i, name) && m[name] == nodes[i].id
  }

  /** The name-to-id table, filled in list order so that a later state of
      the same name overwrites an earlier one. */
  function GetStates(nodes: seq<WorkflowState>): (r: map<string, string>)
    ensures IsStateTable(nodes, r)
  {
    if |nodes| == 0 then map[]
    else
      var init := nodes[..|nodes| - 1];
      var last := nodes[|nodes| - 1];
      assert nodes == init + [last];
      var m := GetStates(init);
      GetStatesStep(init, last, m);
      m[last.name := last.id]
  }

  /** Recording one more state keeps a table correct. */
  lemma GetStatesStep(init: seq<WorkflowState>, last: WorkflowState, m: map<string, string>)
    requires IsStateTable(init, m)
    ensures IsStateTable(init + [last], m[last.name := last.id])
  {
    var nodes := init + [last];
    var m' := m[last.name := last.id];
    assert LastNamed(nodes, |init|, last.name);
    forall name | name in m'
      ensures exists i :: LastNamed(nodes, i, name) && m'[name] == nodes[i].id
    {
      if name != last.name {
        var i :| LastNamed(init, i, name) && m[name] == init[i].id;
        assert LastNamed(nodes, i, name);
      }
    }
  }

  /** The id a name resolves to belongs to the last state of that name. */
  lemma GetStatesLastWins(nodes: seq<WorkflowState>, i: int)
    requires 0 <= i < |nodes|
    requires forall j :: i < j < |nodes| ==> nodes[j].name != nodes[i].name
    ensures GetStates(nodes)[nodes[i].name] == nodes[i].id
  {
    var name := nodes[i].name;
    var r := GetStates(nodes);
    var k :| LastNamed(nodes, k, name) && r[name] == nodes[k].id;
  }

  /** Only listed names resolve. */
  lemma GetStatesKeys(nodes: seq<WorkflowState>, name: string)
    ensures name in GetStates(nodes) <==> exists i :: 0 <= i < |nodes| && nodes[i].name == name
  {
    if name in GetStates(nodes) {
      var i :| LastNamed(nodes, i, name) && GetStates(nodes)[name] == nodes[i].id;
    }
  }

  /** Looking a name up in the table built from the listed states: it
      resolves exactly when some state has that name, and then to the id of
      the last such state; otherwise it is `undefined`. */
  lemma ResolveName(nodes: seq<WorkflowState>, name: string)
    ensures Get(GetStates(nodes), name).Some? <==>
      exists i :: 0 <= i < |nodes| && nodes[i].name == name
    ensures Get(GetStates(nodes), name).Some? ==>
      exists i :: LastNamed(nodes, i, name) && Get(GetStates(nodes), name).value == nodes[i].id
  {
    GetStatesKeys(nodes, name);
  }

  // ---------------------------------------------------------------------
  // Fetching and staleness
  // ---------------------------------------------------------------------

  /** The issues fetched for a state id; with no id (an unresolved name),
      every issue of the tracker. */
  function AllIssues(tracker: seq<Issue>, stateId: Option<string>): (r: seq<Issue>)
    ensures stateId.None? ==> r == tracker
    ensures stateId.Some? ==>
      forall issue :: issue in r <==> issue in tracker && issue.stateId == stateId.value
  {
    match stateId
    case None => tracker
    case Some(s) => Filter(tracker, (issue: Issue) => issue.stateId == s)
  }

  /** Stale means strictly more time has passed since the last update than
      the threshold: an issue updated exactly `after` ago is not stale. */
  function Stale(issue: Issue, after: Duration, now: int): (r: bool)
    ensures r <==> now - issue.updatedAt > after.milliseconds
  {
    var sinceUpdated := Between(DateValue(issue.updatedAt), DateValue(now)).value;
    after.LessThan(sinceUpdated)
  }

  /** A threshold no longer than one an issue is stale under also finds it
      stale. */
  lemma StaleMonotone(issue: Issue, t: Duration, t': Duration, now: int)
    requires Stale(issue, t, now)
    requires t'.milliseconds <= t.milliseconds
    ensures Stale(issue, t', now)
  {
  }

  /** Staleness depends on `updatedAt` alone among the issue's fields. */
  lemma StaleOnlyReadsUpdatedAt(a: Issue, b: Issue, after: Duration, now: int)
    requires a.updatedAt == b.updatedAt
    ensures Stale(a, after, now) == Stale(b, after, now)
  {
  }

  // ---------------------------------------------------------------------
  // The sweep
  // ---------------------------------------------------------------------

  /** The stale issues among `issues`, in fetch order. */
  function StaleIssues(issues: seq<Issue>, after: Duration, now: int): seq<Issue> {
    Filter(issues, (issue: Issue) => Stale(issue, after, now))
  }

  /** The update requests of one pass over the fetched issues: one per stale
      issue, in fetch order, each setting the state to `target` only. */
  function Requests(issues: seq<Issue>, target: Option<string>, after: Duration, now: int)
    : (r: seq<UpdateRequest>)
    ensures var moved := StaleIssues(issues, after, now);
      && |r| == |moved|
      && forall k :: 0 <= k < |r| ==> r[k] == UpdateRequest(moved[k].id, target)
  {
    if |issues| == 0 then []
    else
      var issue := issues[0];
      assert issues == [issue] + issues[1..];
      FilterAppend([issue], issues[1..], (issue: Issue) => Stale(issue, after, now));
      (if Stale(issue, after, now) then [UpdateRequest(issue.id, target)] else [])
        + Requests(issues[1..], target, after, now)
  }

  /** The issues a sweep considers: those of the state `from` resolves to, or
      every issue when it resolves to nothing. */
  function Candidates(states: map<string, string>, tracker: seq<Issue>, from: string)
    : (r: seq<Issue>)
    ensures from !in states ==> r == tracker
    ensures from in states ==>
      forall issue :: issue in r <==> issue in tracker && issue.stateId == states[from]
  {
    AllIssues(tracker, Get(states, from))
  }

  /** `moveIssues` as a pure function of the state table, the tracker's
      issues and the current instant. */
  function MoveIssues(states: map<string, string>, tracker: seq<Issue>, now: int, p: MoveParams)
    : (r: seq<UpdateRequest>)
    ensures var moved := StaleIssues(Candidates(states, tracker, p.from), p.after, now);
      && |r| == |moved|
      && forall k :: 0 <= k < |r| ==> r[k] == UpdateRequest(moved[k].id, Get(states, p.to))
  {
    var issues := AllIssues(tracker, Get(states, p.from));
    Requests(issues, Get(states, p.to), p.after, now)
  }

  /** Requests follow fetch order: sweeping two runs of issues is sweeping
      the first, then the second. */
  lemma {:induction false} RequestsAppend(a: seq<Issue>, b: seq<Issue>, target: Option<string>,
                                          after: Duration, now: int)
    ensures Requests(a + b, target, after, now)
         == Requests(a, target, after, now) + Requests(b, target, after, now)
  {
    if |a| == 0 {
      assert a + b == b;
    } else {
      assert (a + b)[1..] == a[1..] + b;
      RequestsAppend(a[1..], b, target, after, now);
    }
  }

  /** Every candidate that is stale is requested to move, whether or not it
      is snoozed, and no candidate that is not stale is. */
  lemma MovedIffStale(states: map<string, string>, tracker: seq<Issue>, now: int,
                      p: MoveParams, issue: Issue)
    requires issue in Candidates(states, tracker, p.from)
    ensures Stale(issue, p.after, now) ==>
      UpdateRequest(issue.id, Get(states, p.to)) in MoveIssues(states, tracker, now, p)
    ensures (forall other :: other in Candidates(states, tracker, p.from) && other.id == issue.id
               ==> !Stale(other, p.after, now)) ==>
      forall q :: q in MoveIssues(states, tracker, now, p) ==> q.issueId != issue.id
  {
    var moved := StaleIssues(Candidates(states, tracker, p.from), p.after, now);
    var r := MoveIssues(states, tracker, now, p);
    if Stale(issue, p.after, now) {
      assert issue in moved;
      var k :| 0 <= k < |moved| && moved[k] == issue;
      assert r[k] == UpdateRequest(issue.id, Get(states, p.to));
    }
  }

  /** A `from` that names no workflow state sweeps the whole tracker. */
  lemma UnknownFromSweepsEverything(states: map<string, string>, tracker: seq<Issue>,
                                    now: int, p: MoveParams)
    requires p.from !in states
    ensures Candidates(states, tracker, p.from) == tracker
    ensures MoveIssues(states, tracker, now, p) == Requests(tracker, Get(states, p.to), p.after, now)
  {
  }

  /** A `to` that names no workflow state still sends one request per stale
      issue, each with an undefined state. */
  lemma UnknownToSendsUndefinedState(states: map<string, string>, tracker: seq<Issue>,
                                     now: int, p: MoveParams)
    requires p.to !in states
    ensures forall q :: q in MoveIssues(states, tracker, now, p) ==> q.stateId.None?
  {
  }

  /** Two issues in "Todo", both last updated ten days ago and one of them
      snoozed, swept to "Triage" after two days: both are moved. */
  lemma SnoozedTodoScenario()
    ensures var day := OfDays(1).milliseconds;
      var states := GetStates([WorkflowState("s1", "Todo"), WorkflowState("s2", "Triage")]);
      var a := Issue("A", "s1", 0, None, "");
      var b := Issue("B", "s1", 0, Some(20 * day), "");
      MoveIssues(states, [a, b], 10 * day, MoveParams("Todo", "Triage", OfDays(2)))
        == [UpdateRequest("A", Some("s2")), UpdateRequest("B", Some("s2"))]
  {
    var day := OfDays(1).milliseconds;
    var nodes := [WorkflowState("s1", "Todo"), WorkflowState("s2", "Triage")];
    GetStatesLastWins(nodes, 0);
    GetStatesLastWins(nodes, 1);
    var states := GetStates(nodes);
    var a := Issue("A", "s1", 0, None, "");
    var b := Issue("B", "s1", 0, Some(20 * day), "");
    var candidates := Candidates(states, [a, b], "Todo");
    assert candidates == [a, b] by {
      var p := (issue: Issue) => issue.stateId == "s1";
      assert [a, b] == [a] + [b];
      FilterAppend([a], [b], p);
      assert Filter([a], p) == [a] by { assert [a][1..] == []; }
      assert Filter([b], p) == [b] by { assert [b][1..] == []; }
    }
  }
}
