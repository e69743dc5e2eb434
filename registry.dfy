/** The registry as a value: the two keyed tables and the id counter, its
    invariant, and one function per operation. The class in module
    Supervisor is proved to follow these functions. */
module Registry {
  import opened TaskTypes

  /** The state of a task manager: task metadata by id, live child handles by
      id, and the next id to hand out. */
  datatype State = State(tasks: map<nat, TaskInfo>, children: map<nat, ChildHandle>, nextId: nat)

  /** The registry invariant: ids are positive, below the counter and stored in
      their own record; a child handle is kept for a task exactly while the
      task is recorded as running; and the counter fits in 32 bits. */
  predicate Consistent(s: State) {
    && 1 <= s.nextId <= U32_MAX
    && s.children.Keys <= s.tasks.Keys
    && (forall id :: id in s.tasks ==> 1 <= id < s.nextId && s.tasks[id].id == id)
    && (forall id :: id in s.tasks ==> (id in s.children <==> s.tasks[id].status.Running?))
  }

  /** A fresh task manager: no tasks, no children, ids start at 1. */
  function Init(): (s: State)
    ensures Consistent(s)
    ensures s.nextId == 1 && |s.tasks| == 0 && |s.children| == 0
  {
    State(map[], map[], 1)
  }

  /** The stored metadata of task `id`, if it was ever registered. */
  function Lookup(s: State, id: nat): (r: Option<TaskInfo>)
    ensures r.None? <==> id !in s.tasks
    ensures r.Some? ==> r.value == s.tasks[id]
    ensures Consistent(s) && r.Some? ==> r.value.id == id && 1 <= id < s.nextId
  {
    if id in s.tasks then Some(s.tasks[id]) else None
  }

  /** The stored status of task `id`, if it was ever registered. */
  function StatusOf(s: State, id: nat): (r: Option<TaskStatus>)
    ensures r.None? <==> id !in s.tasks
    ensures r.Some? ==> Lookup(s, id) == Some(s.tasks[id].(status := r.value))
  {
    if id in s.tasks then Some(s.tasks[id].status) else None
  }

  /** Registering a launched command under the current counter value, which
      is the id handed back to the caller. */
  function Register(s: State, command: string, start: Timestamp, child: ChildHandle): (r: State)
    requires s.nextId < U32_MAX
    ensures r.nextId == s.nextId + 1
    ensures Consistent(s) ==> s.nextId !in s.tasks && s.nextId !in s.children && Consistent(r)
    ensures Lookup(r, s.nextId) == Some(TaskInfo(s.nextId, command, start, Running))
    ensures s.nextId in r.children && r.children[s.nextId] == child
    ensures r.tasks - {s.nextId} == s.tasks - {s.nextId}
    ensures r.children - {s.nextId} == s.children - {s.nextId}
  {
    var id := s.nextId;
    State(s.tasks[id := TaskInfo(id, command, start, Running)], s.children[id := child], id + 1)
  }

  /** The terminal status that a poll reporting termination or an error is
      folded into. */
  function TerminalStatus(poll: PollResult): (st: TaskStatus)
    requires !poll.NotExited?
    ensures st.IsTerminal()
    ensures st.Completed? <==> poll.Exited? && poll.status.success
    ensures st.Completed? ==> st.exitCode == poll.status.code.GetOr(0)
    ensures poll.Exited? && !poll.status.success ==> st.Failed? && st.reason == ExitCode(poll.status.code)
    ensures poll.PollError? ==> st.Failed? && st.reason == PollFailure(poll.message)
  {
    match poll
    case Exited(status) =>
      if status.success then Completed(status.code.GetOr(0)) else Failed(ExitCode(status.code))
    case PollError(message) =>
      Failed(PollFailure(message))
  }

  /** Reconciling task `id` against `poll`, the answer the operating system
      gives when its child is polled once. The child is polled only if a
      handle is held for `id`; otherwise the stored status (or nothing, for an
      unknown id) is returned and nothing changes. */
  function Check(s: State, id: nat, poll: PollResult): (r: (State, Option<TaskStatus>))
    // only task `id` can change, and only its status; nothing is ever deleted
    ensures r.0.nextId == s.nextId && r.0.tasks.Keys == s.tasks.Keys
    ensures r.0.tasks - {id} == s.tasks - {id} && r.0.children - {id} == s.children - {id}
    ensures id in s.tasks ==> r.0.tasks[id] == s.tasks[id].(status := r.0.tasks[id].status)
    // no handle: no side effect, the stored status is reported
    ensures id !in s.children ==> r.0 == s && r.1 == StatusOf(s, id)
    // still running: the handle is put back, nothing changes
    ensures id in s.children && poll.NotExited? ==> r.0 == s && r.1 == Some(Running)
    // finished: the handle is dropped and the terminal status recorded and reported
    ensures id in s.children && !poll.NotExited? ==>
      && id !in r.0.children
      && r.1 == Some(TerminalStatus(poll))
      && (id in s.tasks ==> r.0.tasks[id].status == TerminalStatus(poll))
    // on a consistent registry: the invariant is kept, the answer is the new
    // stored status, and a status only ever moves from running to terminal
    ensures Consistent(s) ==> Consistent(r.0)
    ensures Consistent(s) ==> r.1 == StatusOf(r.0, id)
    ensures Consistent(s) && id in s.tasks && s.tasks[id].status.IsTerminal() ==> r.0 == s
    ensures Consistent(s) && id in s.tasks && r.0.tasks[id].status != s.tasks[id].status ==>
      s.tasks[id].status.Running? && r.0.tasks[id].status.IsTerminal()
  {
    if id !in s.children then
      (s, StatusOf(s, id))
    else if poll.NotExited? then
      (s, Some(Running))
    else
      var st := TerminalStatus(poll);
      var tasks := if id in s.tasks then s.tasks[id := s.tasks[id].(status := st)] else s.tasks;
      (State(tasks, s.children - {id}, s.nextId), Some(st))
  }
}
