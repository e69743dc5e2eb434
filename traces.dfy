/** Sequences of registry operations, as a sequential task manager sees them
    (a run in which whole calls are serialised is one such
    sequence), and what they guarantee: fresh consecutive ids, statuses that
    move once from running to terminal, and an invariant kept throughout. */
module Traces {
  import opened TaskTypes
  import opened Registry

  /** The arguments of one registration: the command, when it was launched,
      and the handle of the child it runs in. */
  datatype Launch = Launch(command: string, start: Timestamp, child: ChildHandle)

  /** Registering `launches` one after another; also returns the id each
      registration handed out, in order. */
  function RegisterAll(s: State, launches: seq<Launch>): (r: (State, seq<nat>))
    requires s.nextId + |launches| <= U32_MAX
    decreases |launches|
  {
    if launches == [] then (s, [])
    else
      var l := launches[0];
      var next := RegisterAll(Register(s, l.command, l.start, l.child), launches[1..]);
      (next.0, [s.nextId] + next.1)
  }

  /** Successive registrations hand out the consecutive ids `s.nextId`,
      `s.nextId + 1`, ..., none of them known before; each new task is stored
      as running with its own command, start time and child; every earlier
      task and handle is kept as it was. */
  lemma {:induction false} RegisterAllIssuesFreshConsecutiveIds(s: State, launches: seq<Launch>)
    requires Consistent(s)
    requires s.nextId + |launches| <= U32_MAX
    decreases |launches|
    ensures var (r, ids) := RegisterAll(s, launches);
      && Consistent(r)
      && r.nextId == s.nextId + |launches|
      && |ids| == |launches|
      && (forall k :: 0 <= k < |ids| ==> ids[k] == s.nextId + k && ids[k] !in s.tasks)
      && (forall i, j :: 0 <= i < j < |ids| ==> ids[i] < ids[j])
      && (forall k :: 0 <= k < |ids| ==>
            && Lookup(r, ids[k]) == Some(TaskInfo(ids[k], launches[k].command, launches[k].start, Running))
            && ids[k] in r.children && r.children[ids[k]] == launches[k].child)
      && (forall id :: id in s.tasks ==> id in r.tasks && r.tasks[id] == s.tasks[id])
      && (forall id :: id in s.children ==> id in r.children && r.children[id] == s.children[id])
  {
    if launches != [] {
      var l := launches[0];
      var s1 := Register(s, l.command, l.start, l.child);
      RegisterAllIssuesFreshConsecutiveIds(s1, launches[1..]);
      var (r, ids) := RegisterAll(s, launches);
      var rest := RegisterAll(s1, launches[1..]).1;
      assert ids == [s.nextId] + rest;
      forall k | 1 <= k < |ids|
        ensures ids[k] == s.nextId + k && launches[k] == launches[1..][k - 1]
      {
        assert ids[k] == rest[k - 1];
      }
    }
  }

  /** The index of the first poll that reports termination or an error, or
      the number of polls if every one reports the child still running. */
  function FirstExit(polls: seq<PollResult>): (k: nat)
    ensures k <= |polls|
    ensures forall i :: 0 <= i < k ==> polls[i].NotExited?
    ensures k < |polls| ==> !polls[k].NotExited?
  {
    if polls == [] || !polls[0].NotExited? then 0 else 1 + FirstExit(polls[1..])
  }

  /** Checking task `id` once per element of `polls`; also returns what each
      check reported, in order. */
  function CheckAll(s: State, id: nat, polls: seq<PollResult>): (r: (State, seq<Option<TaskStatus>>))
    decreases |polls|
  {
    if polls == [] then (s, [])
    else
      var first := Check(s, id, polls[0]);
      var next := CheckAll(first.0, id, polls[1..]);
      (next.0, [first.1] + next.1)
  }

  /** Without a live handle (the task is finished, or was never registered)
      checking is idempotent: every check reports the stored status, or
      nothing for an unknown id, and leaves the registry as it was. */
  lemma {:induction false} ChecksOnSettledTask(s: State, id: nat, polls: seq<PollResult>)
    requires id !in s.children
    ensures var (r, obs) := CheckAll(s, id, polls);
      && r == s
      && |obs| == |polls|
      && (forall i :: 0 <= i < |obs| ==> obs[i] == StatusOf(s, id))
  {
    if polls != [] {
      ChecksOnSettledTask(s, id, polls[1..]);
    }
  }

  /** Checking a running task: every check before the first poll that reports
      termination or an error reports `Running`; that poll decides the
      terminal status, which that check and every later one report; the
      handle is dropped and the status recorded then, and nothing else in the
      registry changes. */
  lemma {:induction false} ChecksOnLiveTask(s: State, id: nat, polls: seq<PollResult>)
    requires Consistent(s)
    requires id in s.children
    ensures var (r, obs) := CheckAll(s, id, polls);
      var k := FirstExit(polls);
      && Consistent(r)
      && |obs| == |polls|
      && (forall i :: 0 <= i < k ==> obs[i] == Some(Running))
      && (forall i :: k <= i < |obs| ==> obs[i] == Some(TerminalStatus(polls[k])))
      && (k == |polls| ==> r == s)
      && (k < |polls| ==>
            && r.nextId == s.nextId
            && r.tasks == s.tasks[id := s.tasks[id].(status := TerminalStatus(polls[k]))]
            && r.children == s.children - {id})
  {
    if polls != [] {
      var (t, o) := Check(s, id, polls[0]);
      if polls[0].NotExited? {
        ChecksOnLiveTask(t, id, polls[1..]);
        var (r, obs) := CheckAll(s, id, polls);
        var rest := CheckAll(t, id, polls[1..]).1;
        assert obs == [o] + rest;
        assert FirstExit(polls) == 1 + FirstExit(polls[1..]);
        forall i | 1 <= i < |obs|
          ensures obs[i] == rest[i - 1] && polls[i] == polls[1..][i - 1]
        {
        }
      } else {
        ChecksOnSettledTask(t, id, polls[1..]);
        assert t.tasks == s.tasks[id := s.tasks[id].(status := TerminalStatus(polls[0]))];
      }
    }
  }

  /** The reports of repeated checks are monotone: once a check reports a
      terminal status, every later check reports exactly that status. */
  predicate MonotoneReports(obs: seq<Option<TaskStatus>>) {
    forall i, j :: 0 <= i < j < |obs| && obs[i].Some? && obs[i].value.IsTerminal() ==> obs[j] == obs[i]
  }

  /** Repeated checks of the same id on a consistent registry report a
      status exactly when the id is known, and the reports form `Running`
      any number of times followed by one terminal status repeated. */
  lemma {:induction false} RepeatedChecksAreMonotone(s: State, id: nat, polls: seq<PollResult>)
    requires Consistent(s)
    ensures var (r, obs) := CheckAll(s, id, polls);
      && Consistent(r)
      && |obs| == |polls|
      && (forall i :: 0 <= i < |obs| ==> (obs[i].Some? <==> id in s.tasks))
      && MonotoneReports(obs)
      && (forall i, j :: 0 <= i < j < |obs| && obs[j] == Some(Running) ==> obs[i] == Some(Running))
  {
    if id in s.children {
      ChecksOnLiveTask(s, id, polls);
    } else {
      ChecksOnSettledTask(s, id, polls);
    }
  }

  /** The operations that change a registry. */
  datatype Op = Add(launch: Launch) | Poll(id: nat, poll: PollResult)

  /** How many registrations `ops` performs. */
  function AddCount(ops: seq<Op>): (n: nat)
    ensures n <= |ops|
  {
    if ops == [] then 0 else (if ops[0].Add? then 1 else 0) + AddCount(ops[1..])
  }

  /** Performing one operation. */
  function Step(s: State, op: Op): (r: State)
    requires op.Add? ==> s.nextId < U32_MAX
    ensures r.nextId == s.nextId + (if op.Add? then 1 else 0)
  {
    match op
    case Add(l) => Register(s, l.command, l.start, l.child)
    case Poll(id, poll) => Check(s, id, poll).0
  }

  /** Performing `ops` in order. */
  function Run(s: State, ops: seq<Op>): State
    requires s.nextId + AddCount(ops) <= U32_MAX
    decreases |ops|
  {
    if ops == [] then s else Run(Step(s, ops[0]), ops[1..])
  }

  /** `r` is a later state of `s`: the counter has not gone back, no task was
      deleted, a task's id, command and start time never change, and a
      terminal status is never overwritten. */
  predicate Evolves(s: State, r: State) {
    && s.nextId <= r.nextId
    && forall id :: id in s.tasks ==>
         && id in r.tasks
         && r.tasks[id] == s.tasks[id].(status := r.tasks[id].status)
         && (s.tasks[id].status.IsTerminal() ==> r.tasks[id].status == s.tasks[id].status)
  }

  /** Every operation keeps the invariant and evolves the state. */
  lemma StepEvolves(s: State, op: Op)
    requires Consistent(s)
    requires op.Add? ==> s.nextId < U32_MAX
    ensures Consistent(Step(s, op)) && Evolves(s, Step(s, op))
  {
  }

  /** Any run of operations keeps the invariant, evolves the state, and
      advances the counter by exactly the number of registrations. */
  lemma {:induction false} RunEvolves(s: State, ops: seq<Op>)
    requires Consistent(s)
    requires s.nextId + AddCount(ops) <= U32_MAX
    decreases |ops|
    ensures var r := Run(s, ops);
      Consistent(r) && Evolves(s, r) && r.nextId == s.nextId + AddCount(ops)
  {
    if ops != [] {
      var t := Step(s, ops[0]);
      StepEvolves(s, ops[0]);
      RunEvolves(t, ops[1..]);
    }
  }

  /** Every state a task manager can reach from a fresh one is consistent. */
  lemma ReachableStatesAreConsistent(ops: seq<Op>)
    requires 1 + AddCount(ops) <= U32_MAX
    ensures Consistent(Run(Init(), ops))
  {
    RunEvolves(Init(), ops);
  }

  /** A command that exits with code 0: a check while it runs may report
      `Running`; once it is dead the check reports `Completed(0)`, and so do
      later checks, whatever the later polls say; the stored record keeps the
      original command and start time. */
  lemma ExitZeroScenario(command: string, start: Timestamp, child: ChildHandle, later: seq<PollResult>)
    ensures var s := Register(Init(), command, start, child);
      var polls := [NotExited, Exited(ExitStatus(true, Some(0)))] + later;
      var (r, obs) := CheckAll(s, 1, polls);
      && |obs| == 2 + |later|
      && obs[0] == Some(Running)
      && (forall i :: 1 <= i < |obs| ==> obs[i] == Some(Completed(0)))
      && Lookup(r, 1) == Some(TaskInfo(1, command, start, Completed(0)))
  {
    var s := Register(Init(), command, start, child);
    var polls := [NotExited, Exited(ExitStatus(true, Some(0)))] + later;
    ChecksOnLiveTask(s, 1, polls);
    assert polls[1] == Exited(ExitStatus(true, Some(0)));
    assert FirstExit(polls) == 1;
  }

  /** A command that exits with code 1: checks report `Running` while it runs,
      then a failure carrying exit code 1, never a completion; the stored
      record keeps the original command and start time. */
  lemma ExitOneScenario(command: string, start: Timestamp, child: ChildHandle, waiting: nat, later: seq<PollResult>)
    ensures var s := Register(Init(), command, start, child);
      var polls := seq(waiting, _ => NotExited) + [Exited(ExitStatus(false, Some(1)))] + later;
      var (r, obs) := CheckAll(s, 1, polls);
      && Lookup(r, 1) == Some(TaskInfo(1, command, start, Failed(ExitCode(Some(1)))))
      && |obs| == waiting + 1 + |later|
      && (forall i :: 0 <= i < waiting ==> obs[i] == Some(Running))
      && (forall i :: waiting <= i < |obs| ==> obs[i] == Some(Failed(ExitCode(Some(1)))))
  {
    var s := Register(Init(), command, start, child);
    var polls := seq(waiting, _ => NotExited) + [Exited(ExitStatus(false, Some(1)))] + later;
    ChecksOnLiveTask(s, 1, polls);
    assert polls[waiting] == Exited(ExitStatus(false, Some(1)));
    assert FirstExit(polls) == waiting;
  }

  /** On a fresh task manager an unknown id is reported as not found, both by
      a lookup and by a check, and the check changes nothing. */
  lemma UnknownIdScenario(poll: PollResult)
    ensures Lookup(Init(), 999999) == None
    ensures Check(Init(), 999999, poll) == (Init(), None)
  {
  }
}
