// The initializer task scheduler of a search node: a DAG of initializer
// tasks, a runner that discovers the ready ones and hands them to a worker
// executor, and a per-run context whose completion action fires once the
// root task is DONE.
//
// Tasks live in an arena (task t depends on the tasks deps[t]); acyclicity
// is witnessed by a rank that strictly decreases along every dependency
// edge. The context lane is sequential, so every lane step is a method call;
// the worker executor is the set of submitted work units not yet finished,
// and which of them finishes next is the caller's (nondeterministic) choice.
module Initializer {

  datatype State = Blocked | Running | Done

  /** Position of a state on the only path a task takes: BLOCKED -> RUNNING -> DONE. */
  function Progress(s: State): nat
  {
    match s
    case Blocked => 0
    case Running => 1
    case Done => 2
  }

  predicate NoDup(s: seq<nat>)
  {
    forall i, j :: 0 <= i < j < |s| ==> s[i] != s[j]
  }

  /** No task of s1 is behind its state in s0. */
  predicate Progressed(s0: seq<State>, s1: seq<State>)
  {
    |s0| == |s1| && forall t :: 0 <= t < |s0| ==> Progress(s0[t]) <= Progress(s1[t])
  }

  /** Moving forward twice is moving forward. */
  lemma ProgressedTrans(s0: seq<State>, s1: seq<State>, s2: seq<State>)
    requires Progressed(s0, s1) && Progressed(s1, s2)
    ensures Progressed(s0, s2)
  {
  }

  /** Every dependency of task t is DONE in the state vector s. */
  predicate DepsDoneIn(deps: seq<seq<nat>>, s: seq<State>, t: nat)
    requires t < |deps|
  {
    forall j :: 0 <= j < |deps[t]| ==> deps[t][j] < |s| && s[deps[t][j]] == Done
  }

  /** Task t is ready in the state vector s: BLOCKED, every dependency DONE. */
  predicate ReadyIn(deps: seq<seq<nat>>, s: seq<State>, t: nat)
    requires t < |deps|
  {
    t < |s| && s[t] == Blocked && DepsDoneIn(deps, s, t)
  }

  /** The runner's bookkeeping agrees with the state vector s: the tasks in
      flight are exactly the RUNNING ones, each with its dependencies DONE,
      count is their number, and ran lists, without repetition, exactly the
      DONE tasks, each with its dependencies DONE. */
  ghost predicate RunnerOk(deps: seq<seq<nat>>, s: seq<State>, inFlight: set<nat>, count: nat, ran: seq<nat>)
  {
    && |s| == |deps|
    && (forall t :: t in inFlight ==> t < |deps| && s[t] == Running && DepsDoneIn(deps, s, t))
    && (forall t :: 0 <= t < |deps| && s[t] == Running ==> t in inFlight)
    && count == |inFlight|
    && NoDup(ran)
    && (forall i :: 0 <= i < |ran| ==> ran[i] < |deps| && s[ran[i]] == Done && DepsDoneIn(deps, s, ran[i]))
    && (forall t :: 0 <= t < |deps| && s[t] == Done ==> t in ran)
  }

  /** s with every task of list set RUNNING. */
  function WithRunning(s: seq<State>, list: seq<nat>): (r: seq<State>)
    requires forall k :: 0 <= k < |list| ==> list[k] < |s|
    ensures |r| == |s|
    ensures forall t :: 0 <= t < |s| ==> r[t] == if t in list then Running else s[t]
  {
    if list == [] then s
    else
      var n := |list| - 1;
      assert list == list[..n] + [list[n]];
      WithRunning(s, list[..n])[list[n] := Running]
  }

  /** Setting BLOCKED tasks RUNNING moves the state vector forward. */
  lemma WithRunningProgressed(s: seq<State>, list: seq<nat>)
    requires forall k :: 0 <= k < |list| ==> list[k] < |s| && s[list[k]] == Blocked
    ensures Progressed(s, WithRunning(s, list))
  {
    assert forall t :: t in list ==> s[t] == Blocked;
  }

  /** f with every task of list submitted for ctx. */
  function Submitted(f: map<nat, Context>, list: seq<nat>, ctx: Context): (r: map<nat, Context>)
    ensures forall t :: t in r <==> t in f || t in list
    ensures forall t :: t in r ==> r[t] == if t in list then ctx else f[t]
  {
    if list == [] then f
    else
      var n := |list| - 1;
      assert list == list[..n] + [list[n]];
      Submitted(f, list[..n], ctx)[list[n] := ctx]
  }

  /** Something is in flight after a submission exactly when there was
      something before or something to submit. */
  lemma SubmittedNonEmpty(f: map<nat, Context>, list: seq<nat>, ctx: Context)
    ensures Submitted(f, list, ctx) != map[] <==> f != map[] || list != []
  {
    if f != map[] {
      var u :| u in f;
      assert u in Submitted(f, list, ctx);
    } else if list != [] {
      assert list[0] in Submitted(f, list, ctx);
    }
  }

  /** Dispatching the next task of a list extends both records by it. */
  lemma DispatchStep(s: seq<State>, f: map<nat, Context>, list: seq<nat>, i: nat, ctx: Context)
    requires i < |list| && forall k :: 0 <= k < |list| ==> list[k] < |s|
    ensures WithRunning(s, list[..i + 1]) == WithRunning(s, list[..i])[list[i] := Running]
    ensures Submitted(f, list[..i + 1], ctx) == Submitted(f, list[..i], ctx)[list[i] := ctx]
  {
    assert list[..i + 1][..i] == list[..i];
  }

  /** A task of a list of ready tasks is still ready once the tasks before
      it are RUNNING, as long as the list has no repetition. */
  lemma StillReady(deps: seq<seq<nat>>, s: seq<State>, list: seq<nat>, i: nat)
    requires |s| == |deps| && NoDup(list) && i < |list|
    requires forall k :: 0 <= k < |list| ==> list[k] < |deps| && s[list[k]] == Blocked && DepsDoneIn(deps, s, list[k])
    ensures WithRunning(s, list[..i])[list[i]] == Blocked
    ensures DepsDoneIn(deps, WithRunning(s, list[..i]), list[i])
  {
    assert list[i] !in list[..i];
    forall j | 0 <= j < |deps[list[i]]|
      ensures deps[list[i]][j] !in list[..i]
    {
      assert s[deps[list[i]][j]] == Done;
    }
  }

  /** Dispatching a ready task keeps the bookkeeping consistent. */
  lemma DispatchKeepsRunnerOk(deps: seq<seq<nat>>, s: seq<State>, inFlight: set<nat>, count: nat, ran: seq<nat>, t: nat)
    requires RunnerOk(deps, s, inFlight, count, ran)
    requires t < |deps| && s[t] == Blocked && DepsDoneIn(deps, s, t)
    ensures RunnerOk(deps, s[t := Running], inFlight + {t}, count + 1, ran)
  {
    var s' := s[t := Running];
    assert t !in inFlight;
    forall u: nat | u < |deps| && DepsDoneIn(deps, s, u)
      ensures DepsDoneIn(deps, s', u)
    {
      assert forall j :: 0 <= j < |deps[u]| ==> deps[u][j] != t;
    }
  }

  /** Completing a RUNNING task keeps the bookkeeping consistent and appends
      the task to the completion record. */
  lemma DoneKeepsRunnerOk(deps: seq<seq<nat>>, s: seq<State>, inFlight: set<nat>, count: nat, ran: seq<nat>, t: nat)
    requires RunnerOk(deps, s, inFlight, count, ran)
    requires t in inFlight
    ensures count > 0
    ensures RunnerOk(deps, s[t := Done], inFlight - {t}, count - 1, ran + [t])
  {
    var s' := s[t := Done];
    assert t !in ran;
    forall u: nat | u < |deps| && DepsDoneIn(deps, s, u)
      ensures DepsDoneIn(deps, s', u)
    {
    }
  }

  /** The dependency graph of one initialization, with each task's state. */
  class TaskGraph {
    const deps: seq<seq<nat>>
    ghost const rank: seq<nat>
    const state: array<State>

    ghost predicate Valid()
    {
      && state.Length == |deps|
      && |rank| == |deps|
      && forall t, j :: 0 <= t < |deps| && 0 <= j < |deps[t]| ==>
           deps[t][j] < |deps| && rank[deps[t][j]] < rank[t]
    }

    /** Every task starts BLOCKED. */
    constructor (deps: seq<seq<nat>>, ghost rank: seq<nat>)
      requires |rank| == |deps|
      requires forall t, j :: 0 <= t < |deps| && 0 <= j < |deps[t]| ==>
                 deps[t][j] < |deps| && rank[deps[t][j]] < rank[t]
      ensures Valid() && fresh(state)
      ensures this.deps == deps
      ensures forall t :: 0 <= t < |deps| ==> state[t] == Blocked
    {
      this.deps := deps;
      this.rank := rank;
      state := new State[|deps|](_ => Blocked);
    }

    predicate DepsDone(t: nat)
      reads this, state
      requires Valid() && t < |deps|
    {
      DepsDoneIn(deps, state[..], t)
    }

    /** A ready task: BLOCKED, with every dependency DONE. */
    predicate IsReady(t: nat)
      reads this, state
      requires Valid() && t < |deps|
    {
      state[t] == Blocked && DepsDone(t)
    }

    /** No RUNNING task is reachable from t along a path of BLOCKED tasks
        (the part of the graph the readiness walk looks at). */
    ghost predicate NoRunningBelow(t: nat)
      reads this, state
      requires Valid() && t < |deps|
      decreases rank[t]
    {
      && state[t] != Running
      && (state[t] == Blocked ==>
            forall j :: 0 <= j < |deps[t]| ==> NoRunningBelow(deps[t][j]))
    }

    predicate NoneRunning()
      reads this, state
      requires Valid()
    {
      forall t :: 0 <= t < |deps| ==> state[t] != Running
    }

    ghost function RunningSet(): set<nat>
      reads this, state
      requires Valid()
    {
      set t: nat | t < |deps| && state[t] == Running
    }

    ghost function Unfinished(): set<nat>
      reads this, state
      requires Valid()
    {
      set t: nat | t < |deps| && state[t] != Done
    }

    /** ready extends readyIn by distinct ready tasks that are newly
        checked: in checked but not in checkedIn. */
    ghost predicate ReadyAdded(readyIn: seq<nat>, ready: seq<nat>, checkedIn: set<nat>, checked: set<nat>)
      reads this, state
      requires Valid()
    {
      && readyIn <= ready
      && (forall k :: |readyIn| <= k < |ready| ==>
            ready[k] in checked && ready[k] !in checkedIn && ready[k] < |deps| && IsReady(ready[k]))
      && (forall k :: |readyIn| <= k < |ready| ==> ready[k] !in ready[|readyIn|..k])
    }

    /** Every newly checked task is BLOCKED, is in ready if it is ready, and
        has each of its BLOCKED dependencies checked as well. */
    ghost predicate CheckedAdded(checkedIn: set<nat>, checked: set<nat>, ready: seq<nat>)
      reads this, state
      requires Valid()
    {
      && checkedIn <= checked
      && forall x :: x in checked && x !in checkedIn ==>
           && x < |deps| && state[x] == Blocked
           && (IsReady(x) ==> x in ready)
           && (forall j :: 0 <= j < |deps[x]| && state[deps[x][j]] == Blocked ==> deps[x][j] in checked)
    }

    /** Two walks in sequence collect what one walk would. */
    lemma ReadyAddedTrans(a: seq<nat>, b: seq<nat>, c: seq<nat>, ca: set<nat>, cb: set<nat>, cc: set<nat>)
      requires Valid() && ca <= cb <= cc
      requires ReadyAdded(a, b, ca, cb) && ReadyAdded(b, c, cb, cc)
      ensures ReadyAdded(a, c, ca, cc)
    {
      forall k | |a| <= k < |c|
        ensures c[k] in cc && c[k] !in ca
      {
        if k < |b| {
          assert c[k] == b[k];
        }
      }
      forall k | |a| <= k < |c|
        ensures c[k] !in c[|a|..k]
      {
        if k < |b| {
          assert c[|a|..k] == b[|a|..k];
        } else {
          assert c[|a|..k] == b[|a|..] + c[|b|..k];
          assert forall y :: y in b[|a|..] ==> y in cb;
        }
      }
    }

    /** Two walks in sequence check what one walk would. */
    lemma CheckedAddedTrans(ca: set<nat>, cb: set<nat>, cc: set<nat>, b: seq<nat>, c: seq<nat>)
      requires Valid() && b <= c
      requires CheckedAdded(ca, cb, b) && CheckedAdded(cb, cc, c)
      ensures CheckedAdded(ca, cc, c)
    {
      forall y | y in b
        ensures y in c
      {
        var k :| 0 <= k < |b| && b[k] == y;
        assert c[k] == y;
      }
    }

    /** The loop of a readiness walk from the BLOCKED task t, recorded in
        seen, after i of its dependencies: isReady tells whether they are all
        DONE, the tasks collected and checked so far obey ReadyAdded and
        CheckedAdded, each BLOCKED one among them is checked, every task
        checked is reachable from t, and with no
        RUNNING task below t the collection is not empty once it can be. */
    ghost predicate DepsWalked(t: nat, i: nat, readyIn: seq<nat>, seen: set<nat>,
                               ready: seq<nat>, checked: set<nat>, isReady: bool, stack: set<nat>)
      reads this, state
      requires Valid() && t < |deps| && i <= |deps[t]|
    {
      && (isReady <==> forall j :: 0 <= j < i ==> state[deps[t][j]] == Done)
      && ReadyAdded(readyIn, ready, seen, checked)
      && CheckedAdded(seen, checked, ready)
      && (forall j :: 0 <= j < i && state[deps[t][j]] == Blocked ==> deps[t][j] in checked)
      && CheckedWithin(t, seen, checked)
      && (NoRunningBelow(t) && (seen <= stack + {t} || |readyIn| > 0) ==>
            (checked <= stack + {t} || |ready| > 0) && (!isReady ==> |ready| > 0))
    }

    /** The walk from the BLOCKED dependency i of t, which obeys the walk's
        contract, extends the loop's invariant by one dependency. */
    lemma WalkInto(t: nat, i: nat, readyIn: seq<nat>, seen: set<nat>, ready0: seq<nat>, checked0: set<nat>,
                   isReady0: bool, stack: set<nat>, ready: seq<nat>, checked: set<nat>)
      requires Valid() && t < |deps| && state[t] == Blocked && i < |deps[t]| && state[deps[t][i]] == Blocked
      requires DepsWalked(t, i, readyIn, seen, ready0, checked0, isReady0, stack)
      requires deps[t][i] in checked
      requires ReadyAdded(ready0, ready, checked0, checked) && CheckedAdded(checked0, checked, ready)
      requires CheckedWithin(deps[t][i], checked0, checked)
      requires (NoRunningBelow(deps[t][i]) && (checked0 <= stack + {t} || |ready0| > 0)) ==> |ready| > 0
      ensures DepsWalked(t, i + 1, readyIn, seen, ready, checked, false, stack)
    {
      ReadyAddedTrans(readyIn, ready0, ready, seen, checked0, checked);
      CheckedAddedTrans(seen, checked0, checked, ready0, ready);
      WithinStep(t, i, seen, checked0, checked);
    }

    /** The end of a walk from a BLOCKED task: it joins ready exactly when
        all its dependencies are DONE. */
    lemma WalkDone(t: nat, readyIn: seq<nat>, ready: seq<nat>, r: seq<nat>, checkedIn: set<nat>, checked: set<nat>)
      requires Valid() && t < |deps| && state[t] == Blocked && t !in checkedIn
      requires ReadyAdded(readyIn, ready, checkedIn + {t}, checked)
      requires CheckedAdded(checkedIn + {t}, checked, ready)
      requires forall j :: 0 <= j < |deps[t]| && state[deps[t][j]] == Blocked ==> deps[t][j] in checked
      requires r == if DepsDone(t) then ready + [t] else ready
      ensures ReadyAdded(readyIn, r, checkedIn, checked) && CheckedAdded(checkedIn, checked, r)
    {
      if DepsDone(t) {
        assert r[|ready|] == t && r[|readyIn|..|ready|] == ready[|readyIn|..];
        forall y | y in ready
          ensures y in r
        {
          var k :| 0 <= k < |ready| && ready[k] == y;
          assert r[k] == y;
        }
      }
    }

    /** x can be reached from t along dependency edges through tasks
        BLOCKED in s, t and x included: what a readiness walk from t over
        the states s can visit. */
    ghost predicate ReachIn(s: seq<State>, t: nat, x: nat)
      requires Valid() && |s| == |deps| && t < |deps|
      decreases rank[t]
    {
      && s[t] == Blocked
      && (x == t || exists j :: 0 <= j < |deps[t]| && ReachIn(s, deps[t][j], x))
    }

    /** x is t or one of its dependencies, directly or transitively. */
    ghost predicate Below(t: nat, x: nat)
      requires Valid() && t < |deps|
      decreases rank[t]
    {
      x == t || exists j :: 0 <= j < |deps[t]| && Below(deps[t][j], x)
    }

    /** A walk over any state vector stays among t and its dependencies. */
    lemma {:induction false} ReachBelow(s: seq<State>, t: nat, x: nat)
      requires Valid() && |s| == |deps| && t < |deps| && ReachIn(s, t, x)
      ensures Below(t, x)
      decreases rank[t]
    {
      if x != t {
        var j :| 0 <= j < |deps[t]| && ReachIn(s, deps[t][j], x);
        ReachBelow(s, deps[t][j], x);
      }
    }

    /** Every task outside root's dependencies has the same state in s0 and s1. */
    ghost predicate SameOutside(root: nat, s0: seq<State>, s1: seq<State>)
      requires Valid() && root < |deps| && |s0| == |deps| && |s1| == |deps|
    {
      forall x: nat :: x < |deps| && !Below(root, x) ==> s1[x] == s0[x]
    }

    /** Every task of keys is one of root's dependencies. */
    ghost predicate AllBelow(root: nat, keys: set<nat>)
      requires Valid() && root < |deps|
    {
      forall u :: u in keys ==> u < |deps| && Below(root, u)
    }

    /** Every entry of ran that is not in r0 is one of root's dependencies. */
    ghost predicate RanBelow(root: nat, r0: seq<nat>, ran: seq<nat>)
      requires Valid() && root < |deps|
    {
      forall i :: 0 <= i < |ran| ==> ran[i] in r0 || (ran[i] < |deps| && Below(root, ran[i]))
    }

    /** A dispatch from a walk over base keeps a run inside root's
        dependencies: tasks outside keep their state from s0, and every
        unit in flight is below root. */
    lemma ClosureKept(root: nat, s0: seq<State>, base: seq<State>, s1: seq<State>,
                      f0: map<nat, Context>, f1: map<nat, Context>, ready: seq<nat>, ctx: Context)
      requires Valid() && root < |deps| && |s0| == |deps| && |base| == |deps|
      requires SameOutside(root, s0, base) && AllBelow(root, f0.Keys)
      requires forall k :: 0 <= k < |ready| ==> ready[k] < |deps|
      requires forall u: nat :: u in ready ==> ReachIn(base, root, u)
      requires s1 == WithRunning(base, ready) && f1 == Submitted(f0, ready, ctx)
      ensures |s1| == |deps| && SameOutside(root, s0, s1) && AllBelow(root, f1.Keys)
    {
      forall u | u in ready
        ensures Below(root, u)
      {
        ReachBelow(base, root, u);
      }
    }

    /** Finishing a unit below root keeps the run inside root's dependencies. */
    lemma FinishKept(root: nat, s0: seq<State>, step: seq<State>, f0: map<nat, Context>,
                     r0: seq<nat>, ran: seq<nat>, t: nat)
      requires Valid() && root < |deps| && |s0| == |deps| && |step| == |deps|
      requires SameOutside(root, s0, step) && AllBelow(root, f0.Keys) && RanBelow(root, r0, ran) && t in f0
      ensures SameOutside(root, s0, step[t := Done]) && AllBelow(root, (f0 - {t}).Keys)
      ensures RanBelow(root, r0, ran + [t])
    {
    }

    /** Every task newly checked is reachable from t through BLOCKED tasks. */
    ghost predicate CheckedWithin(t: nat, checkedIn: set<nat>, checked: set<nat>)
      reads this, state
      requires Valid() && t < |deps|
    {
      forall x :: x in checked && x !in checkedIn ==> ReachIn(state[..], t, x)
    }

    /** What a walk from dependency i of the BLOCKED task t checks is
        reachable from t as well. */
    lemma WithinStep(t: nat, i: nat, seen: set<nat>, checked0: set<nat>, checked: set<nat>)
      requires Valid() && t < |deps| && i < |deps[t]| && state[t] == Blocked
      requires CheckedWithin(t, seen, checked0) && CheckedWithin(deps[t][i], checked0, checked)
      ensures CheckedWithin(t, seen, checked)
    {
      forall x | x in checked && x !in seen
        ensures ReachIn(state[..], t, x)
      {
        if x !in checked0 {
          assert ReachIn(state[..], deps[t][i], x);
        }
      }
    }

    /** A set of checked tasks closed under BLOCKED dependencies, holding t,
        holds every task reachable from t through BLOCKED tasks. */
    lemma {:induction false} ReachClosed(checked: set<nat>, ready: seq<nat>, t: nat, x: nat)
      requires Valid() && t < |deps| && t in checked
      requires CheckedAdded({}, checked, ready)
      requires ReachIn(state[..], t, x)
      ensures x in checked
      decreases rank[t]
    {
      if x != t {
        var j :| 0 <= j < |deps[t]| && ReachIn(state[..], deps[t][j], x);
        assert state[deps[t][j]] == Blocked;
        ReachClosed(checked, ready, deps[t][j], x);
      }
    }

    /** A whole walk from root, started with nothing checked, collects
        exactly the ready tasks reachable from root through BLOCKED tasks. */
    lemma WalkExact(root: nat, ready: seq<nat>, checked: set<nat>)
      requires Valid() && root < |deps|
      requires ReadyAdded([], ready, {}, checked) && CheckedAdded({}, checked, ready)
      requires CheckedWithin(root, {}, checked)
      requires state[root] == Blocked ==> root in checked
      ensures forall u: nat :: u in ready <==> u < |deps| && ReadyIn(deps, state[..], u) && ReachIn(state[..], root, u)
    {
      forall u: nat | u < |deps| && ReadyIn(deps, state[..], u) && ReachIn(state[..], root, u)
        ensures u in ready
      {
        ReachClosed(checked, ready, root, u);
      }
      forall u | u in ready
        ensures u < |deps| && ReadyIn(deps, state[..], u) && ReachIn(state[..], root, u)
      {
        var k :| 0 <= k < |ready| && ready[k] == u;
        assert ready[k] in checked;
      }
    }

    /** Under the runner's bookkeeping, everything a DONE task depends on,
        directly or transitively, is DONE and has run. */
    lemma {:induction false} DoneBelow(s: seq<State>, inFlight: set<nat>, count: nat, ran: seq<nat>, t: nat, x: nat)
      requires Valid() && t < |deps| && RunnerOk(deps, s, inFlight, count, ran)
      requires s[t] == Done && Below(t, x)
      ensures x < |deps| && s[x] == Done && x in ran
      decreases rank[t]
    {
      if x == t {
      } else {
        var j :| 0 <= j < |deps[t]| && Below(deps[t][j], x);
        assert t in ran;
        var i :| 0 <= i < |ran| && ran[i] == t;
        assert DepsDoneIn(deps, s, t);
        DoneBelow(s, inFlight, count, ran, deps[t][j], x);
      }
    }

    /** States only moved forward. */
    twostate predicate Forward()
      reads this, state
    {
      Progressed(old(state[..]), state[..])
    }
  }

  /** With no RUNNING task anywhere, none is below any task. */
  lemma {:induction false} NoRunningAnywhereBelow(g: TaskGraph, t: nat)
    requires g.Valid() && t < |g.deps| && g.NoneRunning()
    ensures g.NoRunningBelow(t)
    decreases g.rank[t]
  {
    if g.state[t] == Blocked {
      forall j | 0 <= j < |g.deps[t]|
        ensures g.NoRunningBelow(g.deps[t][j])
      {
        NoRunningAnywhereBelow(g, g.deps[t][j]);
      }
    }
  }

  /** The state of one run: its root task, the done flag, and how many times
      the completion action (doneTask) has run. */
  class Context {
    const root: nat
    var finished: bool
    var completions: nat

    ghost predicate Valid()
      reads this
    {
      completions == if finished then 1 else 0
    }

    constructor (root: nat)
      ensures Valid() && this.root == root && !finished && completions == 0
    {
      this.root := root;
      finished := false;
      completions := 0;
    }

    predicate IsDone()
      reads this
    {
      finished
    }

    /** Marks the run done and runs the completion action. */
    method SetDone()
      modifies this
      ensures finished && completions == old(completions) + 1
    {
      finished := true;
      completions := completions + 1;
    }
  }

  class TaskRunner {
    const graph: TaskGraph
    /** Tasks dispatched and not yet completed. */
    var runningTasks: nat
    /** Work units submitted to the worker executor and not yet completed,
        each with the context its completion is posted to. */
    var inFlight: map<nat, Context>
    /** Tasks whose body has run to completion, in order. */
    ghost var ran: seq<nat>

    ghost predicate Valid()
      reads this, graph, graph.state
    {
      && graph.Valid()
      && RunnerOk(graph.deps, graph.state[..], inFlight.Keys, runningTasks, ran)
    }

    ghost predicate ContextOk(ctx: Context)
      reads this, graph, graph.state, ctx
      requires Valid()
    {
      && ctx.Valid()
      && ctx.root < |graph.deps|
      && (ctx.finished ==> graph.state[ctx.root] == Done)
    }

    constructor (graph: TaskGraph)
      requires graph.Valid()
      requires forall t :: 0 <= t < |graph.deps| ==> graph.state[t] == Blocked
      ensures Valid() && this.graph == graph
      ensures runningTasks == 0 && inFlight == map[] && ran == []
    {
      this.graph := graph;
      runningTasks := 0;
      inFlight := map[];
      ran := [];
    }

    /** The running-task counter is the number of RUNNING tasks, so it is
        zero exactly when no task is RUNNING. */
    lemma CounterCountsRunning()
      requires Valid()
      ensures runningTasks == |graph.RunningSet()|
      ensures runningTasks == 0 <==> graph.NoneRunning()
    {
      assert inFlight.Keys == graph.RunningSet();
      if runningTasks != 0 {
        var t :| t in inFlight;
        assert !graph.NoneRunning();
      }
    }

    /** The teardown check: no dispatched task may still be outstanding. */
    method Destroy()
      requires Valid() && runningTasks == 0
      ensures inFlight == map[]
      ensures forall t :: 0 <= t < |graph.deps| ==> graph.state[t] != Running
    {
    }

    /** One readiness walk from task: collects into ready every BLOCKED
        task, reached through BLOCKED tasks, whose dependencies are all DONE,
        and records every visited task in checked. It changes no state. */
    method GetReadyTasks(task: nat, readyIn: seq<nat>, checkedIn: set<nat>, ghost stack: set<nat>)
      returns (ready: seq<nat>, checked: set<nat>)
      requires graph.Valid() && task < |graph.deps|
      requires forall s :: s in stack ==> s < |graph.deps| && graph.rank[task] < graph.rank[s]
      decreases graph.rank[task], 1
      ensures graph.state[task] != Blocked ==> ready == readyIn && checked == checkedIn
      ensures graph.state[task] == Blocked ==> task in checked
      ensures graph.ReadyAdded(readyIn, ready, checkedIn, checked)
      ensures graph.CheckedAdded(checkedIn, checked, ready)
      ensures graph.CheckedWithin(task, checkedIn, checked)
      ensures (graph.state[task] == Blocked && graph.NoRunningBelow(task) &&
               (checkedIn <= stack || |readyIn| > 0)) ==> |ready| > 0
    {
      ready, checked := readyIn, checkedIn;
      if graph.state[task] != Blocked {
        return;
      }
      if task in checked {
        assert task !in stack;
        return;
      }
      checked := checked + {task};
      ghost var seen := checked;
      var isReady := true;
      for i := 0 to |graph.deps[task]|
        invariant graph.DepsWalked(task, i, readyIn, seen, ready, checked, isReady, stack)
      {
        ready, checked, isReady := VisitDep(task, i, readyIn, seen, ready, checked, isReady, stack);
      }
      graph.WalkDone(task, readyIn, ready, if isReady then ready + [task] else ready, checkedIn, checked);
      if isReady {
        ready := ready + [task];
      }
    }

    /** One round of the loop of a readiness walk from task: the walk from
        dependency i when it is BLOCKED, and the update of the ready flag. */
    method VisitDep(task: nat, i: nat, ghost readyIn: seq<nat>, ghost seen: set<nat>,
                    ready0: seq<nat>, checked0: set<nat>, isReady0: bool, ghost stack: set<nat>)
      returns (ready: seq<nat>, checked: set<nat>, isReady: bool)
      requires graph.Valid() && task < |graph.deps| && graph.state[task] == Blocked && i < |graph.deps[task]|
      requires forall s :: s in stack ==> s < |graph.deps| && graph.rank[task] < graph.rank[s]
      requires graph.DepsWalked(task, i, readyIn, seen, ready0, checked0, isReady0, stack)
      decreases graph.rank[task], 0
      ensures graph.DepsWalked(task, i + 1, readyIn, seen, ready, checked, isReady, stack)
    {
      ready, checked, isReady := ready0, checked0, isReady0;
      var dep := graph.deps[task][i];
      match graph.state[dep] {
        case Running =>
          assert !graph.NoRunningBelow(task);
          isReady := false;
        case Done =>
        case Blocked =>
          isReady := false;
          ready, checked := GetReadyTasks(dep, ready, checked, stack + {task});
          graph.WalkInto(task, i, readyIn, seen, ready0, checked0, isReady0, stack, ready, checked);
      }
    }

    method SetTaskRunning(t: nat)
      requires t < graph.state.Length
      modifies graph.state, this`runningTasks
      ensures graph.state[..] == old(graph.state[..])[t := Running]
      ensures runningTasks == old(runningTasks) + 1
    {
      graph.state[t] := Running;
      runningTasks := runningTasks + 1;
    }

    /** Dispatch of one ready task: it becomes RUNNING and its body, followed
        by the posting of its completion to ctx, is submitted to the executor. */
    method InternalRunTask(t: nat, ctx: Context)
      requires Valid() && t < |graph.deps| && graph.IsReady(t)
      modifies this, graph.state
      ensures Valid() && graph.Forward()
      ensures graph.state[..] == old(graph.state[..])[t := Running]
      ensures inFlight == old(inFlight)[t := ctx]
      ensures runningTasks == old(runningTasks) + 1
      ensures ran == old(ran)
    {
      DispatchKeepsRunnerOk(graph.deps, graph.state[..], inFlight.Keys, runningTasks, ran, t);
      SetTaskRunning(t);
      inFlight := inFlight[t := ctx];
      assert inFlight.Keys == old(inFlight.Keys) + {t};
    }

    /** Dispatches a duplicate-free list of ready tasks, in list order. */
    method InternalRunTasks(list: seq<nat>, ctx: Context)
      requires Valid() && NoDup(list)
      requires forall k :: 0 <= k < |list| ==> list[k] < |graph.deps| && graph.IsReady(list[k])
      modifies this, graph.state
      ensures Valid() && graph.Forward()
      ensures graph.state[..] == WithRunning(old(graph.state[..]), list)
      ensures inFlight == Submitted(old(inFlight), list, ctx)
      ensures runningTasks == old(runningTasks) + |list|
      ensures ran == old(ran)
    {
      ghost var s0, f0 := graph.state[..], inFlight;
      assert forall k :: 0 <= k < |list| ==> s0[list[k]] == Blocked && DepsDoneIn(graph.deps, s0, list[k]);
      for i := 0 to |list|
        invariant Valid()
        invariant graph.state[..] == WithRunning(s0, list[..i])
        invariant inFlight == Submitted(f0, list[..i], ctx)
        invariant runningTasks == old(runningTasks) + i && ran == old(ran)
      {
        StillReady(graph.deps, s0, list, i);
        InternalRunTask(list[i], ctx);
        DispatchStep(s0, f0, list, i, ctx);
      }
      assert list[..|list|] == list;
      WithRunningProgressed(s0, list);
    }

    /** One poll of a run: nothing once the run is done; the completion
        action once the root is DONE; otherwise dispatch of every task the
        readiness walk from the root finds. */
    method PollTask(ctx: Context) returns (ghost ready: seq<nat>)
      requires Valid() && ContextOk(ctx)
      modifies this, graph.state, ctx
      ensures Valid() && ContextOk(ctx) && graph.Forward() && ran == old(ran)
      ensures forall k :: 0 <= k < |ready| ==> ready[k] < |graph.deps|
      ensures forall u: nat :: u in ready <==>
                u < |graph.deps| && ReadyIn(graph.deps, old(graph.state[..]), u) && graph.ReachIn(old(graph.state[..]), ctx.root, u)
      ensures graph.state[..] == WithRunning(old(graph.state[..]), ready)
      ensures inFlight == Submitted(old(inFlight), ready, ctx)
      ensures old(ctx.finished) ==>
                && ctx.finished && ctx.completions == old(ctx.completions)
                && graph.state[..] == old(graph.state[..])
                && inFlight == old(inFlight) && runningTasks == old(runningTasks)
      ensures !old(ctx.finished) && old(graph.state[ctx.root]) == Done ==>
                && ctx.finished && ctx.completions == old(ctx.completions) + 1 && ctx.completions == 1
                && graph.state[..] == old(graph.state[..])
                && inFlight == old(inFlight) && runningTasks == old(runningTasks)
      ensures !old(ctx.finished) && old(graph.state[ctx.root]) != Done ==>
                !ctx.finished && ctx.completions == old(ctx.completions)
      ensures ctx.finished || inFlight != map[]
    {
      if ctx.IsDone() {
        return [];
      }
      if graph.state[ctx.root] == Done {
        ctx.SetDone();
        return [];
      }
      ready := DispatchReady(ctx);
    }

    /** The walk of one poll, from the root with nothing checked yet: each
        ready task reachable from the root through BLOCKED tasks, once, and
        nothing else; at least one when the root is BLOCKED and no RUNNING
        task is reachable from it. It changes no state. */
    method ReadyFromRoot(root: nat) returns (ready: seq<nat>)
      requires Valid() && root < |graph.deps|
      ensures NoDup(ready)
      ensures forall k :: 0 <= k < |ready| ==> ready[k] < |graph.deps| && graph.IsReady(ready[k]) && ready[k] !in inFlight
      ensures forall u: nat :: u in ready <==>
                u < |graph.deps| && ReadyIn(graph.deps, graph.state[..], u) && graph.ReachIn(graph.state[..], root, u)
      ensures graph.state[root] == Blocked && graph.NoRunningBelow(root) ==> ready != []
    {
      var checked;
      ready, checked := GetReadyTasks(root, [], {}, {});
      graph.WalkExact(root, ready, checked);
    }

    /** The rest of a poll of a run whose root is not DONE: the readiness
        walk from the root and the dispatch of every task it finds. Work is
        then in flight: either some was already, or the walk found a task. */
    method DispatchReady(ctx: Context) returns (ghost ready: seq<nat>)
      requires Valid() && ctx.root < |graph.deps| && graph.state[ctx.root] != Done
      modifies this, graph.state
      ensures Valid() && graph.Forward() && ran == old(ran)
      ensures forall k :: 0 <= k < |ready| ==> ready[k] < |graph.deps|
      ensures forall u: nat :: u in ready <==>
                u < |graph.deps| && ReadyIn(graph.deps, old(graph.state[..]), u) && graph.ReachIn(old(graph.state[..]), ctx.root, u)
      ensures graph.state[..] == WithRunning(old(graph.state[..]), ready)
      ensures inFlight == Submitted(old(inFlight), ready, ctx)
      ensures inFlight != map[]
    {
      if inFlight == map[] {
        NoRunningAnywhereBelow(graph, ctx.root);
      }
      var readyTasks := ReadyFromRoot(ctx.root);
      ready := readyTasks;
      SubmittedNonEmpty(inFlight, readyTasks, ctx);
      InternalRunTasks(readyTasks, ctx);
    }

    /** task.setDone() and the decrement of the running count; the
        executor's unit for t is retired and its body recorded as run. */
    method MarkTaskDone(t: nat)
      requires Valid() && t in inFlight
      modifies this, graph.state
      ensures Valid() && graph.Forward()
      ensures graph.state[..] == old(graph.state[..])[t := Done]
      ensures inFlight == old(inFlight) - {t}
      ensures runningTasks == old(runningTasks) - 1
      ensures ran == old(ran) + [t]
    {
      DoneKeepsRunnerOk(graph.deps, graph.state[..], inFlight.Keys, runningTasks, ran, t);
      graph.state[t] := Done;
      runningTasks := runningTasks - 1;
      inFlight := inFlight - {t};
      ran := ran + [t];
      assert inFlight.Keys == old(inFlight.Keys) - {t};
    }

    /** Completion of task t, run on the lane after its body returned:
        DONE, one fewer running task, then a poll of its run. */
    method SetTaskDone(t: nat, ctx: Context) returns (ghost ready: seq<nat>)
      requires Valid() && t in inFlight && inFlight[t] == ctx && ContextOk(ctx)
      modifies this, graph.state, ctx
      ensures Valid() && ContextOk(ctx) && graph.Forward()
      ensures forall k :: 0 <= k < |ready| ==> ready[k] < |graph.deps|
      ensures forall u: nat :: u in ready <==>
                u < |graph.deps| && ReadyIn(graph.deps, old(graph.state[..])[t := Done], u) && graph.ReachIn(old(graph.state[..])[t := Done], ctx.root, u)
      ensures graph.state[..] == WithRunning(old(graph.state[..])[t := Done], ready)
      ensures inFlight == Submitted(old(inFlight) - {t}, ready, ctx)
      ensures graph.state[t] == Done
      ensures ran == old(ran) + [t]
      ensures t !in inFlight
      ensures forall u :: u in inFlight ==>
                (u in old(inFlight) && inFlight[u] == old(inFlight[u])) || inFlight[u] == ctx
      ensures ctx.finished || inFlight != map[]
      ensures ctx.finished <==> old(ctx.finished) || old(graph.state[..])[t := Done][ctx.root] == Done
      ensures old(ctx.finished) ==> ctx.completions == old(ctx.completions)
      ensures !old(ctx.finished) ==> ctx.completions == old(ctx.completions) + (if ctx.finished then 1 else 0)
    {
      MarkTaskDone(t);
      ghost var marked, pending := graph.state[..], inFlight;
      ready := PollTask(ctx);
      ProgressedTrans(old(graph.state[..]), marked, graph.state[..]);
      assert t !in ready by {
        assert !ReadyIn(graph.deps, marked, t);
      }
    }

    /** The worker executor finishes one submitted unit, of the caller's
        choosing: the task body runs (its effect is not modelled), then its completion runs on
        the lane. */
    method RunInFlight(t: nat) returns (ghost ready: seq<nat>)
      requires Valid() && t in inFlight && ContextOk(inFlight[t])
      modifies this, graph.state, inFlight[t]
      ensures Valid() && ContextOk(old(inFlight[t])) && graph.Forward()
      ensures forall k :: 0 <= k < |ready| ==> ready[k] < |graph.deps|
      ensures forall u: nat :: u in ready <==>
                u < |graph.deps| && ReadyIn(graph.deps, old(graph.state[..])[t := Done], u) && graph.ReachIn(old(graph.state[..])[t := Done], old(inFlight[t]).root, u)
      ensures graph.state[..] == WithRunning(old(graph.state[..])[t := Done], ready)
      ensures inFlight == Submitted(old(inFlight) - {t}, ready, old(inFlight[t]))
      ensures old(graph.state[t]) == Running && graph.state[t] == Done
      ensures ran == old(ran) + [t]
      ensures t !in inFlight
      ensures forall u :: u in inFlight ==>
                (u in old(inFlight) && inFlight[u] == old(inFlight[u])) || inFlight[u] == old(inFlight[t])
      ensures old(inFlight[t]).finished || inFlight != map[]
      ensures old(inFlight[t]).finished <==>
                old(inFlight[t].finished) || old(graph.state[..])[t := Done][old(inFlight[t]).root] == Done
      ensures old(inFlight[t].finished) ==> old(inFlight[t]).completions == old(inFlight[t].completions)
      ensures !old(inFlight[t].finished) ==>
                old(inFlight[t]).completions == old(inFlight[t].completions) + (if old(inFlight[t]).finished then 1 else 0)
      ensures graph.Unfinished() < old(graph.Unfinished())
    {
      var ctx := inFlight[t];
      ghost var before := graph.Unfinished();
      ready := SetTaskDone(t, ctx);
      assert graph.Unfinished() < before by {
        assert t in before && t !in graph.Unfinished();
      }
    }

    /** Start of a run: a fresh context and its first poll. */
    method RunTask(root: nat) returns (ctx: Context, ghost ready: seq<nat>)
      requires Valid() && root < |graph.deps|
      modifies this, graph.state
      ensures fresh(ctx) && ctx.root == root
      ensures Valid() && ContextOk(ctx) && graph.Forward() && ran == old(ran)
      ensures forall k :: 0 <= k < |ready| ==> ready[k] < |graph.deps|
      ensures forall u: nat :: u in ready <==>
                u < |graph.deps| && ReadyIn(graph.deps, old(graph.state[..]), u) && graph.ReachIn(old(graph.state[..]), root, u)
      ensures graph.state[..] == WithRunning(old(graph.state[..]), ready)
      ensures inFlight == Submitted(old(inFlight), ready, ctx)
      ensures ctx.finished <==> old(graph.state[root]) == Done
      ensures ctx.finished || inFlight != map[]
      ensures forall t :: t in inFlight ==>
                inFlight[t] == if t in old(inFlight) then old(inFlight[t]) else ctx
    {
      ctx := new Context(root);
      ready := PollTask(ctx);
    }

    /** A whole run with nothing else in flight: start it, then let the
        executor finish submitted units, in any order, until none is left.
        The run ends with the root DONE and the completion action run once. */
    method RunToCompletion(root: nat) returns (ctx: Context)
      requires Valid() && root < |graph.deps| && inFlight == map[]
      modifies this, graph.state
      ensures Valid() && graph.Forward()
      ensures ctx.root == root && ctx.finished && ctx.completions == 1
      ensures graph.state[root] == Done
      ensures inFlight == map[] && runningTasks == 0
      ensures NoDup(ran)
      ensures forall x: nat :: x < |graph.deps| && graph.Below(root, x) ==> graph.state[x] == Done && x in ran
      ensures forall x: nat :: x < |graph.deps| && !graph.Below(root, x) ==> graph.state[x] == old(graph.state[x])
      ensures forall i :: 0 <= i < |ran| ==> ran[i] in old(ran) || graph.Below(root, ran[i])
    {
      ghost var s0, r0 := graph.state[..], ran;
      ghost var ready;
      ctx, ready := RunTask(root);
      graph.ClosureKept(root, s0, s0, graph.state[..], map[], inFlight, ready, ctx);
      while inFlight != map[]
        invariant fresh(ctx) && ctx.root == root
        invariant Valid() && ContextOk(ctx) && graph.Forward()
        invariant forall u :: u in inFlight ==> inFlight[u] == ctx
        invariant ctx.finished || inFlight != map[]
        invariant graph.AllBelow(root, inFlight.Keys) && graph.RanBelow(root, r0, ran)
        invariant graph.SameOutside(root, s0, graph.state[..])
        decreases graph.Unfinished()
      {
        var t :| t in inFlight;
        ghost var step, pending, done := graph.state[..], inFlight, ran;
        graph.FinishKept(root, s0, step, pending, r0, done, t);
        ready := RunInFlight(t);
        ProgressedTrans(old(graph.state[..]), step, graph.state[..]);
        graph.ClosureKept(root, s0, step[t := Done], graph.state[..], pending - {t}, inFlight, ready, ctx);
      }
      forall x: nat | x < |graph.deps| && graph.Below(root, x)
        ensures graph.state[x] == Done && x in ran
      {
        graph.DoneBelow(graph.state[..], inFlight.Keys, runningTasks, ran, root, x);
      }
    }
  }
}
