/** Value types of the task registry: task statuses, task records, and the
    stand-ins for the operating-system objects the registry only stores or
    reads (start time, child-process handle, the result of polling a child). */
module TaskTypes {

  /** The conventional optional value. */
  datatype Option<T> = None | Some(value: T) {
    /** The value held, or `default` when there is none. */
    function GetOr(default: T): T {
      match this
      case Some(v) => v
      case None => default
    }
  }

  /** Largest value of an unsigned 32-bit integer, the width of a task id. */
  const U32_MAX: nat := 0xFFFF_FFFF

  /** A signed 32-bit integer, the width of a process exit code. */
  newtype Int32 = x: int | -0x8000_0000 <= x < 0x8000_0000

  /** The wall-clock instant at which a task was launched. The registry only
      stores it, so its representation does not matter. */
  datatype Timestamp = Timestamp(raw: int)

  /** An opaque token standing for a live child process. */
  datatype ChildHandle = ChildHandle(token: nat)

  /** How an exited child ended: whether it succeeded, and its exit code when
      the operating system reports one (a child killed by a signal has none). */
  datatype ExitStatus = ExitStatus(success: bool, code: Option<Int32>)

  /** The outcome of one non-blocking poll of a child process. */
  datatype PollResult =
    | NotExited                     // the child is still running
    | Exited(status: ExitStatus)    // the child has terminated
    | PollError(message: string)    // the operating system could not tell

  /** Why a task failed: it exited unsuccessfully, with this exit code if any,
      or polling it failed with this message. */
  datatype FailureReason =
    | ExitCode(code: Option<Int32>)
    | PollFailure(message: string)

  /** The lifecycle of a task: running, then exactly one terminal state. */
  datatype TaskStatus = Running | Completed(exitCode: Int32) | Failed(reason: FailureReason) {
    predicate IsTerminal() {
      !Running?
    }
  }

  /** The metadata the registry keeps about one launched command. */
  datatype TaskInfo = TaskInfo(id: nat, command: string, startTime: Timestamp, status: TaskStatus)
}
