# Task registry of multi-task-pwsh, modelled in Dafny

multi-task-pwsh launches shell commands as child processes and keeps track
of them in a task registry, `TaskManager`. The registry hands out task ids
from a counter that starts at 1. It keeps two keyed tables: task metadata
(command, start time, status) and the live child handle of each task. It
answers lookups and listings. On demand it reconciles a task with its child:
it polls the child once without blocking and folds the answer into the
status `Running`, `Completed(code)` or `Failed(reason)`.

The project has four modules:

- `TaskTypes` (`task_types.dfy`): statuses, task records, and stand-ins for
  the operating-system values the registry only stores or reads. These are
  the start time, the child handle and the result of one poll.
- `Registry` (`registry.dfy`): the registry as a value `State` (both
  tables and the counter), its invariant `Consistent`, and one function
  per operation. `Consistent` says that ids are positive, below the counter
  and stored in their own record. It also says that a child handle is held
  for a task exactly while the task is recorded as running.
- `Traces` (`traces.dfy`): sequences of operations and the properties they
  guarantee. Successive registrations hand out fresh consecutive ids.
  Repeated checks report `Running` until one terminal status, which then
  never changes. Any run of operations keeps the invariant, deletes no task,
  never changes a command or start time and never overwrites a terminal
  status.
- `Supervisor` (`task_manager.dfy`): the class `TaskManager`. Its fields
  are updated in place as in the program. The constructor, `AddTask` and
  `CheckTaskStatus` are proved to produce exactly the state that `Init`,
  `Register` and `Check` describe. `GetTask` is `Lookup` applied to the
  object's tables. `ListTasks` has no `Registry` counterpart: its loop is
  proved to list every stored record exactly once.

The poll of a child, the launch time and the child handle are inputs of
the model. The model does not read a clock or run processes.

## Model

| member | source | states |
|---|---|---|
| `Registry.Init` | src/task_manager.rs:29-35 | a new registry has no tasks, no children and counter 1, and satisfies the invariant |
| `Registry.Lookup` | src/task_manager.rs:54-56 | not found exactly when the id was never registered; otherwise the stored record, whose own id is the key looked up |
| `Registry.StatusOf` | src/task_manager.rs:90-92 | the status stored for the id, or nothing exactly when the id is unknown |
| `Registry.Register` | src/task_manager.rs:37-52 | the id handed out is the old counter value, which was in neither table; the counter grows by one; the new task is running with the given command, start time and child; every other entry is unchanged; the invariant is kept |
| `Registry.TerminalStatus` | src/task_manager.rs:66-83 | a finished poll always gives a terminal status; it is `Completed` exactly for a successful exit, with the exit code or 0 if there is none; an unsuccessful exit fails with its optional exit code; a poll error fails with its message |
| `Registry.Check` | src/task_manager.rs:62-93 | only the checked task can change, and only its status; with no handle nothing changes and the stored status or not-found is reported; a still-running child keeps its handle and `Running` is reported; a finished child loses its handle and its terminal status is stored and reported; the invariant is kept; a terminal task is left untouched; a status only moves from `Running` to terminal |
| `Traces.RegisterAllIssuesFreshConsecutiveIds` | src/task_manager.rs:37-51 | N registrations in a row return the ids `nextId`, `nextId+1`, ..., which are strictly increasing and were all unknown before; each new task is stored as running with its own command, start time and child; earlier tasks and handles are kept |
| `Traces.ChecksOnSettledTask` | src/task_manager.rs:90-92 | for an id without a handle, any number of checks leave the registry unchanged and each reports the stored status, or not-found for an unknown id |
| `Traces.ChecksOnLiveTask` | src/task_manager.rs:62-89 | for a running task, every check before the first finished poll reports `Running`; the first finished poll decides the terminal status, which that check and all later ones report; only that task's status and handle change |
| `Traces.RepeatedChecksAreMonotone` | src/task_manager.rs:62-93 | on a consistent registry, repeated checks of one id report a status exactly when the id is known; the reports are `Running` any number of times, then one terminal status repeated |
| `Traces.StepEvolves` | src/task_manager.rs:37-93 | one registration or check keeps the invariant and evolves the state: the counter does not go back, no task is deleted, id, command and start time are unchanged, a terminal status is never overwritten |
| `Traces.RunEvolves` | src/task_manager.rs:37-93 | any sequence of registrations and checks keeps the invariant, evolves the state, and advances the counter by exactly the number of registrations |
| `Traces.ReachableStatesAreConsistent` | src/task_manager.rs:29-93 | every state reachable from a new registry satisfies the invariant |
| `Traces.ExitZeroScenario` | src/task_manager.rs:66-76 | a command exiting with 0 reports `Running`, then `Completed(0)` from then on; its record keeps the original command and start time |
| `Traces.ExitOneScenario` | src/task_manager.rs:66-76 | a command exiting with 1 reports `Running` until then, then a failure carrying exit code 1, never a completion; its record keeps the original command and start time |
| `Traces.UnknownIdScenario` | src/task_manager.rs:54-56 | on a new registry, an unknown id is not found by a lookup or by a check, and the check changes nothing |
| `Supervisor.TaskManager.constructor` | src/task_manager.rs:29-35 | both tables empty, counter 1, the invariant holds |
| `Supervisor.TaskManager.AddTask` | src/task_manager.rs:37-52 | returns the old counter value, which was in neither table, and increments the counter by one; inserts the running task record and the child under that id and changes nothing else; keeps the invariant |
| `Supervisor.TaskManager.GetTask` | src/task_manager.rs:54-56 | not found exactly when the id is not a key of the task table, otherwise the stored record; reads the state and changes nothing |
| `Supervisor.TaskManager.ListTasks` | src/task_manager.rs:58-60 | returns every stored record exactly once, one per key, in no specified order; changes nothing |
| `Supervisor.TaskManager.CheckTaskStatus` | src/task_manager.rs:62-93 | the new tables and the result are those of `Registry.Check`; with no handle nothing changes; a still-running child is put back and `Running` returned; otherwise the handle is removed and the terminal status stored and returned; the counter is unchanged; the invariant is kept |

## Left out

- src/main.rs: it only runs one command through `pwsh -NoProfile -c` and exits with the child's code. It has no registry logic.
- Concurrency: the `Arc<Mutex<..>>` guards and the `async` signature of `check_task_status` are not modelled. The class is sequential, so only interleavings in which whole calls are serialised are covered. `add_task` takes the two table locks one after the other. A check that ran between those two inserts would find no handle and report the stored `Running`, with no lasting effect. `check_task_status` holds only the child-table lock between removing the handle and writing the new status. A `get_task` in that gap would still see `Running` although the handle is gone. The model captures neither window.
- Launching a process (`tokio::process::Command`) is not part of the registry. `add_task` receives an already running child, which the model treats as the opaque token `ChildHandle`.
- `Child::try_wait` is a call into the operating system. Its answer is the `poll` argument of `CheckTaskStatus`, of type `PollResult`.
- `SystemTime::now()` reads the real clock. The start time is an argument of `AddTask` and is only stored.
- `Registry.TerminalStatus`: the reason for a failure is stored as structured data, not as the strings produced by `format!("Exit code: {:?}", ..)` and `e.to_string()`. An unsuccessful exit keeps its optional exit code. A poll error keeps its message. A missing exit code therefore stays distinguishable from code 0.
- `Supervisor.TaskManager.AddTask`: it requires `nextId < U32_MAX`, so the `u32` counter never overflows. The program would panic (debug build) or wrap to 0 (release build) after 4294967294 tasks, and neither outcome is modelled.
- `Supervisor.TaskManager.ListTasks`: the Rust `HashMap` iterates in an unspecified order. The model picks keys in an arbitrary order and proves only that each record appears exactly once.
- Two behaviours of `check_task_status` are kept as written. A child that exits successfully without an exit code is recorded as `Completed(0)`, because of `unwrap_or(0)`. It is not recorded as a failure. The operating system never reports that combination, since a process counts as successful exactly when its exit code is 0, but `ExitStatus` does not exclude it, so the model covers it the way the code does. If a handle is held for an id that has no task record, the check still returns the terminal status without storing it. The invariant rules this state out.
