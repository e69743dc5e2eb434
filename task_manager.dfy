/** The task manager as the program keeps it: a task table and a child table
    updated in place, and an id counter. Each method is proved to follow the
    corresponding function of module Registry. */
module Supervisor {
  import opened TaskTypes
  import opened Registry

  class TaskManager {
    var tasks: map<nat, TaskInfo>
    var children: map<nat, ChildHandle>
    var nextId: nat

    /** The registry value this object currently holds. */
    function Model(): State
      reads this
    {
      State(tasks, children, nextId)
    }

    ghost predicate Valid()
      reads this
    {
      Consistent(Model())
    }

    /** A task manager with both tables empty whose first id is 1. */
    constructor ()
      ensures Valid() && Model() == Init()
      ensures tasks == map[] && children == map[] && nextId == 1
    {
      tasks := map[];
      children := map[];
      nextId := 1;
    }

    /** Registers a launched command: hands out the counter value as its id,
        records the task as running and keeps its child handle under that id. */
    method AddTask(command: string, start: Timestamp, child: ChildHandle) returns (id: nat)
      requires Valid()
      requires nextId < U32_MAX
      modifies this
      ensures Valid()
      ensures id == old(nextId) && nextId == id + 1
      ensures id !in old(tasks) && id !in old(children)
      ensures tasks == old(tasks)[id := TaskInfo(id, command, start, Running)]
      ensures children == old(children)[id := child]
      ensures Model() == Register(old(Model()), command, start, child)
    {
      id := nextId;
      nextId := nextId + 1;
      var info := TaskInfo(id, command, start, Running);
      tasks := tasks[id := info];
      children := children[id := child];
    }

    /** The stored metadata of a task, or nothing for an unknown id. */
    function GetTask(id: nat): (r: Option<TaskInfo>)
      reads this
      ensures r.None? <==> id !in tasks
      ensures r.Some? ==> r.value == tasks[id]
      ensures Valid() && r.Some? ==> r.value.id == id
    {
      Lookup(Model(), id)
    }

    /** The metadata of every task, each exactly once, in no particular order. */
    method ListTasks() returns (r: seq<TaskInfo>)
      requires Valid()
      ensures |r| == |tasks|
      ensures forall i :: 0 <= i < |r| ==> r[i].id in tasks && tasks[r[i].id] == r[i]
      ensures forall id :: id in tasks ==> exists i :: 0 <= i < |r| && r[i] == tasks[id]
      ensures forall i, j :: 0 <= i < j < |r| ==> r[i].id != r[j].id
    {
      r := [];
      var pending := tasks.Keys;
      while pending != {}
        invariant pending <= tasks.Keys
        invariant |r| + |pending| == |tasks|
        invariant forall i :: 0 <= i < |r| ==> r[i].id in tasks.Keys - pending && tasks[r[i].id] == r[i]
        invariant forall id :: id in tasks.Keys - pending ==> exists i :: 0 <= i < |r| && r[i] == tasks[id]
        invariant forall i, j :: 0 <= i < j < |r| ==> r[i].id != r[j].id
        decreases |pending|
      {
        var id :| id in pending;
        ghost var listed := r;
        r := r + [tasks[id]];
        forall k | k in tasks.Keys - (pending - {id})
          ensures exists i :: 0 <= i < |r| && r[i] == tasks[k]
        {
          if k == id {
            assert r[|listed|] == tasks[k];
          } else {
            var i :| 0 <= i < |listed| && listed[i] == tasks[k];
            assert r[i] == tasks[k];
          }
        }
        pending := pending - {id};
      }
    }

    /** Reconciles task `id` with its child process, where `poll` is what one
        non-blocking poll of that child reports. With no handle for `id`
        nothing changes and the stored status, if any, is returned. Otherwise
        the handle is taken out; if the child is still running it is put back
        and `Running` returned, else the terminal status is recorded and
        returned and the handle stays discarded. */
    method CheckTaskStatus(id: nat, poll: PollResult) returns (r: Option<TaskStatus>)
      requires Valid()
      modifies this
      ensures Valid()
      ensures (Model(), r) == Check(old(Model()), id, poll)
      ensures nextId == old(nextId)
      ensures id !in old(children) ==>
        tasks == old(tasks) && children == old(children) && r == StatusOf(old(Model()), id)
      ensures id in old(children) && poll.NotExited? ==>
        tasks == old(tasks) && children == old(children) && r == Some(Running)
      ensures id in old(children) && !poll.NotExited? ==>
        && children == old(children) - {id}
        && tasks == old(tasks)[id := old(tasks)[id].(status := TerminalStatus(poll))]
        && r == Some(TerminalStatus(poll))
    {
      if id in children {
        var child := children[id];
        children := children - {id};
        match poll
        case Exited(status) =>
          var st := if status.success then Completed(status.code.GetOr(0)) else Failed(ExitCode(status.code));
          if id in tasks {
            tasks := tasks[id := tasks[id].(status := st)];
          }
          r := Some(st);
        case NotExited =>
          children := children[id := child];
          assert children == old(children);
          r := Some(Running);
        case PollError(message) =>
          var st := Failed(PollFailure(message));
          if id in tasks {
            tasks := tasks[id := tasks[id].(status := st)];
          }
          r := Some(st);
      } else {
        r := if id in tasks then Some(tasks[id].status) else None;
      }
    }
  }
}
