// The scheduler's task list, updated in place.
module Sched {
  import opened SchedModel

  class Task {
    var pid: nat
    var quantum: nat
    var left: nat
    var state: State
    var regs: Frame
    var image: Frame
    var stack: nat
    var pgd: nat

    ghost function View(): Info
      reads this
    {
      Info(pid, quantum, left, state, regs, image, stack, pgd)
    }

    // The part of task creation that scheduling depends on: the registers, and
    // their copy on the task's own stack.
    constructor (pid: nat, quantum: nat, regs: Frame, stack: nat, pgd: nat)
      ensures View() == Info(pid, quantum, quantum, Created, regs, regs, stack, pgd) && New(View())
    {
      this.pid, this.quantum, this.left, this.state := pid, quantum, quantum, Created;
      this.regs, this.image, this.stack, this.pgd := regs, regs, stack, pgd;
    }
  }

  ghost function Look(t: Task?): Slot
    reads t
  {
    if t == null then Free else Used(t.View())
  }

  class Scheduler {
    const list: array<Task?>
    var current: Task?
    var count: nat
    var loaded: nat
    ghost var at: nat   // the slot of the current task

    ghost function Tasks(): set<Task>
      reads this, list
    {
      set i | 0 <= i < list.Length && list[i] != null :: list[i]
    }

    ghost predicate Valid()
      reads this, list
    {
      && list.Length == NPROC && at < NPROC
      && (forall i, j :: 0 <= i < j < NPROC && list[i] != null ==> list[i] != list[j])
      && (current != null ==> list[at] == current)
      && (current == null ==> count == 0 && at == 0)
    }

    ghost function Model(): (s: System)
      reads this, list, Tasks()
      requires Valid()
      ensures |s.slots| == NPROC && forall i :: 0 <= i < NPROC ==> s.slots[i] == Look(list[i])
    {
      System(Looks(NPROC), at, count, loaded)
    }

    ghost function Looks(n: nat): (s: seq<Slot>)
      reads this, list, Tasks()
      requires n <= list.Length
      ensures |s| == n && forall i :: 0 <= i < n ==> s[i] == Look(list[i])
    {
      if n == 0 then [] else
        assert list[n - 1] != null ==> list[n - 1] in Tasks();
        Looks(n - 1) + [Look(list[n - 1])]
    }

    // tasking_init, up to the entry into its task.
    constructor (p: Task, loaded: nat)
      requires New(p.View())
      modifies p
      ensures Valid() && fresh(list) && current == p && Tasks() == {p}
      ensures Model() == Boot(old(p.View()), loaded)
    {
      list := new Task?[NPROC](_ => null);
      current, count, at := null, 0, 0;
      this.loaded := loaded;
      new;
      assert Model().slots == Empty(NPROC);
      var frame := AddFirst(p);
    }

    method AddFirst(p: Task) returns (frame: Frame)
      requires Valid() && Tasks() == {} && count == 0 && Model().slots == Empty(NPROC) && New(p.View())
      modifies this, list, p
      ensures Valid() && current == p && Tasks() == {p} && loaded == old(loaded)
      ensures Model() == Boot(old(p.View()), loaded)
    {
      hide Look, Count, Empty;
      var full := AddQueue(p);
      frame := FirstContextSwitch();
    }

    // task_add_queue
    method AddQueue(p: Task) returns (full: bool)
      requires Valid() && p !in Tasks()
      modifies this, list
      ensures Valid() && Model() == Add(old(Model()), old(p.View()))
      ensures full <==> FirstFree(old(Model()).slots) == NPROC
      ensures Tasks() == if full then old(Tasks()) else old(Tasks()) + {p}
      ensures !full && old(count) == 0 ==> current == p
      ensures old(count) > 0 ==> current == old(current)
    {
      hide Tasks;
      ghost var slots := Model().slots;
      for i := 0 to NPROC
        invariant forall j :: 0 <= j < i ==> list[j] != null
      {
        if list[i] == null {
          FirstFreeIs(slots, i);
          Occupy(i, p);
          return false;
        }
      }
      FirstFreeIs(slots, NPROC);
      full := true;
    }

    method Occupy(i: nat, p: Task)
      requires Valid() && p !in Tasks() && i < NPROC && list[i] == null
      modifies this, list
      ensures Valid() && Tasks() == old(Tasks()) + {p}
      ensures old(count) == 0 ==> current == p
      ensures old(count) > 0 ==> current == old(current)
      ensures var s := old(Model()).Put(i, old(p.View()));
              Model() == s.(count := old(count) + 1, current := if old(count) == 0 then i else old(at))
    {
      hide Look, Looks;
      assert forall j :: 0 <= j < NPROC && list[j] != null ==> list[j] in Tasks();
      assert forall j :: 0 <= j < NPROC ==> list[j] != p;
      list[i] := p;
      count := count + 1;
      if count == 1 {
        current := p;
        at := i;
      }
      assert forall j :: 0 <= j < NPROC && j != i ==> list[j] == old(list[j]);
      assert list[i] in Tasks();
      assert forall t :: t in old(Tasks()) ==> t in Tasks() by {
        forall t | t in old(Tasks()) ensures t in Tasks() {
          var j :| 0 <= j < NPROC && old(list[j]) != null && old(list[j]) == t;
          assert list[j] == t;
        }
      }
      assert Look(p) == Used(p.View()) by { LookIs(p); }
      assert Model().slots == old(Model()).slots[i := Used(p.View())];
    }

    // task_remove_queue, for a task that is not the current one. What it calls
    // task_queue_sort moves nothing. A task that is not in the list costs the
    // count all the same.
    method RemoveQueue(p: Task) returns (ghost k: nat)
      requires Valid() && current != null && p != current && count > 0
      modifies this, list
      ensures Valid() && current == old(current) && Tasks() == old(Tasks()) - {p}
      ensures if p in old(Tasks()) then
                && old(Model()).Has(k) && old(list[k]) == p && k != old(Model()).current
                && Model() == Remove(old(Model()), k)
              else Model() == old(Model()).(count := old(count) - 1)
    {
      hide Look, Looks;
      k := NPROC;
      if p in Tasks() {
        k :| 0 <= k < NPROC && list[k] == p;
        LookIs(p);
      }
      Forget(p, k);
      count := count - 1;
    }

    // The loop of task_remove_queue.
    method Forget(p: Task, ghost k: nat)
      requires Valid() && p != current
      requires if k < NPROC then list[k] == p else p !in Tasks()
      modifies list
      ensures Valid() && Tasks() == old(Tasks()) - {p}
      ensures Looks(NPROC) == if k < NPROC then old(Looks(NPROC))[k := Free] else old(Looks(NPROC))
    {
      hide Look;
      assert forall j :: 0 <= j < NPROC && list[j] != null ==> list[j] in Tasks();
      for i := 0 to NPROC
        invariant forall j :: 0 <= j < i ==> list[j] == if old(list[j]) == p then null else old(list[j])
        invariant forall j :: i <= j < NPROC ==> list[j] == old(list[j])
      {
        if p == list[i] {
          list[i] := null;
        }
      }
      LookNone();
      forall t | t in old(Tasks()) && t != p ensures t in Tasks() {
        var j :| 0 <= j < NPROC && old(list[j]) != null && old(list[j]) == t;
        assert list[j] == t;
      }
      assert forall j :: 0 <= j < NPROC && j != k ==> list[j] == old(list[j]);
    }

    // first_context_switch: the processor goes on with the frame on the task's
    // own stack.
    method FirstContextSwitch() returns (frame: Frame)
      requires Valid() && current != null
      modifies current
      ensures Valid() && Model() == old(Model()).Put(at, old(current.View()).(state := Alive))
      ensures frame == old(current.image)
    {
      current.state := Alive;
      frame := current.image;
      assert Model().slots == old(Model()).Put(at, old(current.View()).(state := Alive)).slots;
    }

    // find_next_task
    method FindNext() returns (p: Task?, ghost k: nat)
      requires Valid() && current != null
      ensures match Choose(Model())
              case Panic => p == null
              case Slot(n) => n < NPROC && p != null && p == list[n]
      ensures p != null ==> Choose(Model()) == Choice.Slot(k)
    {
      ghost var s := Model();
      k := at;
      var i := 0;
      while i < NPROC
        invariant 0 <= i && Scan(s.slots, 0) == Scan(s.slots, i)
        decreases NPROC - i
      {
        if list[i] == null {
          i := i + 1;
        } else {
          return list[i], i;
        }
        i := i + 1;
      }
      p := if count == 1 then current else null;
    }

    // schedule: what the timer interrupt does with the frame it saved.
    method Schedule(frame: Frame) returns (outcome: Outcome)
      requires Valid() && current != null
      modifies this, Tasks()
      ensures Valid() && Tasks() == old(Tasks()) && list[..] == old(list[..])
      ensures (Model(), outcome) == Tick(old(Model()), frame)
    {
      hide Switch;
      ghost var s := Model();
      assert current in Tasks() by { assert list[at] == current; }
      if current.left >= 1 {
        current.left := current.left - 1;
        assert Model().slots == s.slots[at := Look(current)];
        return Continue;
      }
      current.left := current.quantum;
      current.regs := frame;
      assert Model().slots == s.slots[at := Look(current)];
      outcome := SwitchTask();
    }

    // The second half: on to the next task.
    method SwitchTask() returns (outcome: Outcome)
      requires Valid() && current != null
      modifies this, Tasks()
      ensures Valid() && Tasks() == old(Tasks()) && list[..] == old(list[..])
      ensures (Model(), outcome) == Switch(old(Model()))
    {
      hide Choose;
      ghost var s := Model();
      var next, k := FindNext();
      if next == null {
        return Halt;
      }
      assert next in Tasks();
      current := next;
      at := k;
      assert Model().slots == s.slots;
      if current.regs.esp <= current.stack {
        return Halt;
      }
      if next.state == Created {
        var entered := FirstContextSwitch();
        return Enter(entered);
      }
      loaded := next.pgd;
      assert Model().slots == s.slots;
      outcome := Restore(current.regs);
    }
  }

  lemma LookIs(t: Task)
    ensures Look(t) == Used(t.View())
  {
  }

  lemma LookNone()
    ensures Look(null) == Free
  {
  }

  lemma FirstFreeIs(slots: seq<Slot>, i: nat)
    requires i <= |slots| && (i < |slots| ==> slots[i].Free?) && forall j :: 0 <= j < i ==> slots[j].Used?
    ensures FirstFree(slots) == i
  {
  }
}
