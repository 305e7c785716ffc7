/** kernel/proc.c: the task table and `schedule`, which realizes the rule of SchedulerSpec. */
module Scheduler {
  import opened SchedulerSpec

  /** `struct task_struct`. */
  class TaskStruct {
    const pid: int
    const priority: int
    var timespan: int

    constructor (pid: int, priority: int, timespan: int)
      ensures this.pid == pid && this.priority == priority && this.timespan == timespan
    {
      this.pid, this.priority, this.timespan := pid, priority, timespan;
    }
  }

  class TaskTable {
    const table: array<TaskStruct?>
    var current: TaskStruct
    ghost var sched: Sched  // the table and the current index as a value

    ghost predicate Valid()
      reads this, table, set i | 0 <= i < table.Length :: table[i]
    {
      && table.Length == 64 && sched.Ok()
      && table[sched.cur] == current
      && (forall i :: 0 <= i < 64 ==> Shows(table[i], sched.slots[i]))
      && (forall i, j :: 0 <= i < j < 64 && table[i] != null ==> table[i] != table[j])
    }

    static ghost predicate Shows(t: TaskStruct?, s: Slot)
      reads t
    {
      if t == null then s == Empty else s == Task(t.priority, t.timespan)
    }

    /** `sched_init`: task 0 alone. */
    constructor (init: TaskStruct)
      ensures Valid() && fresh(table) && current == init && sched.cur == 0
      ensures sched.slots[0] == Task(init.priority, init.timespan)
      ensures forall i :: 1 <= i < 64 ==> sched.slots[i] == Empty
    {
      var t := new TaskStruct?[NR_TASK](_ => null);
      table := t;
      current := init;
      sched := Sched([Task(init.priority, init.timespan)] + seq(63, i => Empty), 0);
      new;
      table[0] := init;
    }

    /** `get_pid`: the least free entry, or -1 when there is none. */
    method GetPid() returns (pid: int)
      requires table.Length == NR_TASK
      ensures pid == -1 ==> forall i :: 0 <= i < NR_TASK ==> table[i] != null
      ensures pid != -1 ==> 0 <= pid < NR_TASK && table[pid] == null && forall i :: 0 <= i < pid ==> table[i] != null
    {
      for i := 0 to NR_TASK
        invariant forall j :: 0 <= j < i ==> table[j] != null
      {
        if table[i] == null {
          return i;
        }
      }
      pid := -1;
    }

    /** `add_task`. */
    method AddTask(task: TaskStruct)
      requires Valid() && 0 <= task.pid < NR_TASK && table[task.pid] == null
      requires forall i :: 0 <= i < 64 ==> table[i] != task
      modifies this`sched, table
      ensures Valid() && current == old(current)
      ensures sched == old(sched).(slots := old(sched).slots[task.pid := Task(task.priority, task.timespan)])
    {
      table[task.pid] := task;
      sched := sched.(slots := sched.slots[task.pid := Task(task.priority, task.timespan)]);
    }

    /** The first loop of `schedule`. */
    method FindCurrent() returns (p: int)
      requires Valid()
      ensures p == sched.cur
    {
      p := 0;
      while p != NR_TASK
        invariant 0 <= p <= NR_TASK
        invariant forall i :: 0 <= i < p ==> table[i] != current
        decreases NR_TASK - p
      {
        if table[p] != null && table[p] == current {
          break;
        }
        p := p + 1;
      }
      assert p <= sched.cur;
    }

    /** The second loop of `schedule`, a do-while around the circle from the entry after `at`. */
    method FindNext(at: int) returns (p: int)
      requires Valid() && at == sched.cur
      ensures p == Found(sched)
    {
      p := at + 1;
      if p == NR_TASK {
        p := 0;
      }
      ghost var d := 1;
      while true
        invariant 1 <= d < 64 && p == At(sched, d)
        invariant Search(sched, 1) == Search(sched, d)
        decreases 64 - d
      {
        if table[p] != null && table[p].timespan > 0 {
          break;
        }
        p := p + 1;
        if p == NR_TASK {
          p := 0;
        }
        d := d + 1;
        if table[p] == current {
          break;
        }
      }
    }

    /** The turn of the task at `p`; `switch_to` makes it the current one. */
    method Run(p: int)
      requires Valid() && 0 <= p < NR_TASK && table[p] != null && table[p].timespan > 0
      modifies this`current, this`sched, table[p]
      ensures Valid() && sched == Charge(old(sched), p) && current == table[p]
    {
      table[p].timespan := table[p].timespan - 1;
      if table[p] != current {
        current := table[p];
      }
      sched := Charge(sched, p);
    }

    /** "reset all": every quota becomes the priority. */
    method ResetAll()
      requires Valid()
      modifies this`sched, set i | 0 <= i < table.Length :: table[i]
      ensures Valid() && sched == Reset(old(sched)) && current == old(current)
    {
      ghost var s := sched;
      var p := 0;
      while p != NR_TASK
        invariant 0 <= p <= NR_TASK && sched == s
        invariant forall i :: 0 <= i < 64 ==> Shows(table[i], if i < p then Recharge(s.slots[i]) else s.slots[i])
        decreases NR_TASK - p
      {
        if table[p] != null {
          table[p].timespan := table[p].priority;
        }
        p := p + 1;
      }
      sched := Reset(sched);
    }

    /** `schedule`: one step of the rule. Without a task that has quota or a positive priority the
        original calls itself for ever. */
    method Schedule()
      requires Valid() && Ready(sched)
      modifies this`current, this`sched, set i | 0 <= i < table.Length :: table[i]
      ensures Valid() && sched == Step(old(sched))
      ensures current == table[sched.cur]
      decreases if AnyQuota(sched) then 0 else 1
    {
      hide Step, Found, AnyShare, AnyQuota, Reset, Charge;
      StepOrReset(sched);
      FoundIsFirst(sched);
      var p := FindCurrent();
      p := FindNext(p);
      if table[p].timespan > 0 {
        Run(p);
      } else {
        ghost var s := sched;
        ResetAll();
        ResetHasQuota(s);
        FoundIsFirst(sched);
        StepOrReset(sched);
        Schedule();
      }
    }
  }
}
