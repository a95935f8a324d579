// The timer-driven scheduler, for tasks that are created or alive.
module SchedModel {

  const NPROC := 32

  // What an interrupt saves on the stack: the stack pointer, and all the rest.
  datatype Frame = Frame(esp: nat, others: seq<nat>)

  datatype State = Created | Alive

  // image is the frame laid out on the task's own stack when it was created;
  // regs is where the scheduler keeps the frame of a task that is not running.
  datatype Info = Info(pid: nat, quantum: nat, left: nat, state: State, regs: Frame, image: Frame,
                       stack: nat, pgd: nat)

  datatype Slot = Free | Used(task: Info)

  // loaded is the page directory the processor uses.
  datatype System = System(slots: seq<Slot>, current: nat, count: nat, loaded: nat)
  {
    predicate Has(k: nat) { k < |slots| && slots[k].Used? }
    function At(k: nat): Info
      requires Has(k)
    {
      slots[k].task
    }
    function Put(k: nat, task: Info): System
      requires k < |slots|
    {
      this.(slots := slots[k := Used(task)])
    }
  }

  // ---------- which task is next ----------

  // The scan from slot i: a free slot takes the one behind it along.
  function Scan(slots: seq<Slot>, i: nat): (k: nat)
    decreases |slots| - i
  {
    if i >= |slots| then i
    else if slots[i].Free? then Scan(slots, i + 2)
    else i
  }

  // Free slots are passed two at a time, so only even slots are ever looked at:
  // the scan finds the first even slot in use.
  lemma {:induction false} ScanFirstEven(slots: seq<Slot>, i: nat)
    requires i % 2 == 0
    ensures var k := Scan(slots, i);
            && i <= k && k % 2 == 0
            && (k < |slots| ==> slots[k].Used?)
            && (forall j :: i <= j < k && j < |slots| && j % 2 == 0 ==> slots[j].Free?)
    decreases |slots| - i
  {
    if i < |slots| && slots[i].Free? {
      ScanFirstEven(slots, i + 2);
    }
  }

  datatype Choice = Slot(k: nat) | Panic

  function Choose(s: System): Choice {
    var k := Scan(s.slots, 0);
    if k < |s.slots| then Choice.Slot(k)
    else if s.count == 1 then Choice.Slot(s.current)
    else Choice.Panic
  }

  // ---------- steps ----------

  function FirstFree(slots: seq<Slot>): (k: nat)
    ensures k <= |slots|
    ensures k < |slots| ==> slots[k].Free?
    ensures forall j :: 0 <= j < k ==> slots[j].Used?
  {
    if slots == [] || slots[0].Free? then 0 else FirstFree(slots[1..]) + 1
  }

  // The first task of all becomes the current one. A full list takes no more.
  function Add(s: System, task: Info): System {
    var k := FirstFree(s.slots);
    if k == |s.slots| then s
    else s.Put(k, task).(count := s.count + 1, current := if s.count == 0 then k else s.current)
  }

  function Remove(s: System, k: nat): System
    requires s.Has(k) && s.count > 0
  {
    s.(slots := s.slots[k := Free], count := s.count - 1)
  }

  // What the timer interrupt does for the processor: it goes on with what it
  // interrupted, returns into a frame kept by the scheduler, or enters a task
  // for the first time through the frame on its stack.
  datatype Outcome = Continue | Restore(frame: Frame) | Enter(frame: Frame) | Halt

  predicate Expires(s: System)
    requires s.Has(s.current)
  {
    s.At(s.current).left < 1
  }

  function Parked(task: Info, frame: Frame): Info { task.(left := task.quantum, regs := frame) }

  function Tick(s: System, frame: Frame): (r: (System, Outcome))
    requires s.Has(s.current)
  {
    var task := s.At(s.current);
    if task.left >= 1 then
      (s.Put(s.current, task.(left := task.left - 1)), Continue)
    else
      Switch(s.Put(s.current, Parked(task, frame)))
  }

  function Switch(s: System): (System, Outcome)
    requires s.Has(s.current)
  {
    match Choose(s)
    case Panic => (s, Halt)
    case Slot(k) =>
      ScanFirstEven(s.slots, 0);
      var s1 := s.(current := k);
      var next := s1.At(k);
      if next.regs.esp <= next.stack then (s1, Halt)
      else if next.state == Created then (s1.Put(k, next.(state := Alive)), Enter(next.image))
      else (s1.(loaded := next.pgd), Restore(next.regs))
  }

  // ---------- what every step keeps ----------

  function Count(slots: seq<Slot>): nat {
    if slots == [] then 0 else Count(slots[..|slots| - 1]) + if slots[|slots| - 1].Used? then 1 else 0
  }

  // A waiting task has a whole slice before it, and a task that never ran has
  // the frame it was created with.
  predicate Settled(task: Info, running: bool) {
    (running || task.left == task.quantum) && (task.state == Created ==> task.regs == task.image)
  }

  ghost predicate Good(s: System) {
    && |s.slots| == NPROC && s.count == Count(s.slots)
    && s.Has(s.current) && s.At(s.current).state == Alive && s.At(s.current).left <= s.At(s.current).quantum
    && (forall k :: 0 <= k < NPROC && s.slots[k].Used? ==> Settled(s.slots[k].task, k == s.current))
  }

  // A task as it is created.
  predicate New(task: Info) { task.state == Created && task.left == task.quantum && task.regs == task.image }

  lemma {:induction false} CountUpdate(slots: seq<Slot>, k: nat, slot: Slot)
    requires k < |slots|
    ensures Count(slots[k := slot]) ==
            Count(slots) + (if slot.Used? then 1 else 0) - (if slots[k].Used? then 1 else 0)
  {
    var n := |slots| - 1;
    if k < n {
      CountUpdate(slots[..n], k, slot);
      assert slots[k := slot][..n] == slots[..n][k := slot];
    } else {
      assert slots[k := slot][..n] == slots[..n];
    }
  }

  lemma {:induction false} CountUsed(slots: seq<Slot>, k: nat)
    requires k < |slots| && slots[k].Used?
    ensures Count(slots) > 0
  {
    var n := |slots| - 1;
    if k < n { CountUsed(slots[..n], k); }
  }

  lemma AddKeeps(s: System, task: Info)
    requires Good(s) && New(task)
    ensures Good(Add(s, task))
  {
    CountUsed(s.slots, s.current);
    var k := FirstFree(s.slots);
    if k < |s.slots| { CountUpdate(s.slots, k, Used(task)); }
  }

  lemma RemoveKeeps(s: System, k: nat)
    requires Good(s) && s.Has(k) && k != s.current
    ensures s.count > 0 && Good(Remove(s, k))
  {
    CountUsed(s.slots, s.current);
    CountUpdate(s.slots, k, Free);
  }

  // The running task, too, has a whole slice again when it is switched out.
  lemma SwitchKeeps(s: System)
    requires Good(s) && s.At(s.current).left == s.At(s.current).quantum
    ensures var (s', outcome) := Switch(s); outcome != Halt ==> Good(s')
  {
    hide Count, Scan;
    ScanFirstEven(s.slots, 0);
    var (s2, outcome) := Switch(s);
    if outcome.Enter? {
      CountUpdate(s.slots, s2.current, Used(s.At(s2.current).(state := Alive)));
    }
  }

  lemma TickKeeps(s: System, frame: Frame)
    requires Good(s)
    ensures var (s', outcome) := Tick(s, frame); outcome != Halt ==> Good(s')
  {
    hide Count, Scan;
    var task := s.At(s.current);
    if task.left >= 1 {
      CountUpdate(s.slots, s.current, Used(task.(left := task.left - 1)));
    } else {
      var s1 := s.Put(s.current, Parked(task, frame));
      CountUpdate(s.slots, s.current, Used(Parked(task, frame)));
      SwitchKeeps(s1);
    }
  }

  // A switch goes to the first even slot in use, whoever ran before; an odd
  // slot runs only if its task is the only one there is.
  lemma WhoIsNext(s: System, frame: Frame)
    requires Good(s) && Expires(s)
    ensures var (s', outcome) := Tick(s, frame);
            outcome != Halt ==>
              || (s'.current % 2 == 0 && forall j :: 0 <= j < s'.current && j % 2 == 0 ==> s.slots[j].Free?)
              || (s'.current == s.current && s.count == 1)
  {
    hide Count;
    var s1 := s.Put(s.current, Parked(s.At(s.current), frame));
    ScanFirstEven(s1.slots, 0);
    assert forall j :: 0 <= j < NPROC ==> (s1.slots[j].Free? <==> s.slots[j].Free?);
  }

  // Parking a task changes no slot from used to free.
  lemma {:induction false} SameScan(s: seq<Slot>, s': seq<Slot>, i: nat)
    requires |s| == |s'| && forall j :: 0 <= j < |s| ==> (s[j].Free? <==> s'[j].Free?)
    ensures Scan(s', i) == Scan(s, i)
    decreases |s| - i
  {
    if i < |s| && s[i].Free? { SameScan(s, s', i + 2); }
  }

  // Told from the state before the tick: the task chosen finds its own page
  // directory loaded exactly if it ran before, or if that directory was loaded
  // already.
  lemma OwnDirectory(s: System, frame: Frame, k: nat)
    requires Good(s) && Expires(s) && Choose(s) == Choice.Slot(k)
    ensures s.Has(k)
    ensures var (s', outcome) := Tick(s, frame);
            outcome != Halt ==>
              && s'.current == k && s'.Has(k) && s'.At(k).pgd == s.At(k).pgd
              && (s'.loaded == s'.At(k).pgd <==> s.At(k).state == Alive || s.loaded == s.At(k).pgd)
  {
    hide Count, Scan;
    var parked := s.Put(s.current, Parked(s.At(s.current), frame));
    SameScan(s.slots, parked.slots, 0);
    ScanFirstEven(s.slots, 0);
    ScanFirstEven(parked.slots, 0);
  }

  // ---------- what a tick does, told from the state before it ----------

  // A switch goes to the task in slot k: the first even slot in use, or the
  // current one if there is none and no other task.
  predicate GoesTo(s: System, k: nat) {
    && s.Has(k)
    && if k % 2 == 0 then forall j :: 0 <= j < k && j % 2 == 0 ==> s.slots[j].Free?
       else k == s.current && s.count == 1 && forall j :: 0 <= j < |s.slots| && j % 2 == 0 ==> s.slots[j].Free?
  }

  // The frame that task has after the tick.
  function FrameOf(s: System, frame: Frame, k: nat): Frame
    requires s.Has(k)
  {
    if k == s.current then frame else s.At(k).regs
  }

  predicate GoesOn(s: System, frame: Frame, k: nat) {
    GoesTo(s, k) && FrameOf(s, frame, k).esp > s.At(k).stack
  }

  // When a slice is over the tick panics exactly if there is no task to go to,
  // or its stack is used up; otherwise that task goes on with its frame if it
  // ran before, and with the one it was created with if it did not.
  lemma TickOutcome(s: System, frame: Frame)
    requires Good(s) && Expires(s)
    ensures Tick(s, frame).1 == Halt <==> !exists k :: GoesOn(s, frame, k)
    ensures forall k :: GoesOn(s, frame, k) ==>
              && Tick(s, frame).0.current == k
              && Tick(s, frame).0.loaded == (if s.At(k).state == Alive then s.At(k).pgd else s.loaded)
              && Tick(s, frame).1 ==
                 if s.At(k).state == Alive then Restore(FrameOf(s, frame, k)) else Enter(s.At(k).image)
  {
    hide Count, Scan;
    var parked := s.Put(s.current, Parked(s.At(s.current), frame));
    ScanFirstEven(parked.slots, 0);
    assert forall j :: 0 <= j < NPROC ==> (parked.slots[j].Free? <==> s.slots[j].Free?);
    var at := Scan(parked.slots, 0);
    var k := if at < NPROC then at else s.current;
    assert forall j :: GoesTo(s, j) ==> j == k;
    assert GoesTo(s, k) <==> at < NPROC || s.count == 1;
    if at < NPROC || s.count == 1 {
      assert Choose(parked) == Choice.Slot(k);
      assert parked.At(k).regs == FrameOf(s, frame, k) && parked.At(k).state == s.At(k).state;
      assert parked.At(k).image == s.At(k).image && parked.At(k).stack == s.At(k).stack;
      assert GoesTo(s, k);
      assert Tick(s, frame) == Switch(parked);
      assert Switch(parked).0.current == k && parked.loaded == s.loaded && parked.At(k).pgd == s.At(k).pgd;
      if GoesOn(s, frame, k) {
        assert s.At(k).state == Alive ==> Switch(parked).1 == Restore(FrameOf(s, frame, k));
        assert s.At(k).state != Alive ==> Switch(parked).1 == Enter(s.At(k).image);
      }
    }
  }

  // What no tick changes in a task.
  predicate SameTask(a: Info, b: Info) {
    a.pid == b.pid && a.quantum == b.quantum && a.image == b.image && a.stack == b.stack && a.pgd == b.pgd
  }

  // No task comes, goes or moves. Of those that neither ran nor run next
  // nothing changes.
  lemma TickEffect(s: System, frame: Frame)
    requires Good(s) && Tick(s, frame).1 != Halt
    ensures var s' := Tick(s, frame).0;
            && |s'.slots| == |s.slots| && s'.count == s.count
            && (forall j :: 0 <= j < |s.slots| ==> (s'.Has(j) <==> s.Has(j)))
            && (forall j :: s.Has(j) ==> SameTask(s.At(j), s'.At(j)))
            && (forall j :: s.Has(j) && j != s.current ==>
                  s'.At(j).left == s.At(j).left && s'.At(j).regs == s.At(j).regs)
            && (forall j :: s.Has(j) ==> (s'.At(j).state == Alive <==> s.At(j).state == Alive || j == s'.current))
    ensures var (s', task) := (Tick(s, frame).0, s.At(s.current));
            if task.left == 0 then
              s'.At(s.current).left == task.quantum && s'.At(s.current).regs == frame
            else
              && s'.At(s.current).left == task.left - 1 && s'.At(s.current).regs == task.regs
              && s'.current == s.current && s'.loaded == s.loaded
  {
    hide Count, Scan;
    var s' := Tick(s, frame).0;
    if Expires(s) {
      var parked := s.Put(s.current, Parked(s.At(s.current), frame));
      ScanFirstEven(parked.slots, 0);
      assert forall j :: s.Has(j) && j != s.current ==> parked.At(j) == s.At(j);
      assert forall j :: s.Has(j) && j != s'.current ==> s'.At(j) == parked.At(j);
    }
  }

  // A task is added in the first free slot, or nowhere if there is none.
  lemma AddEffect(s: System, task: Info)
    ensures var s' := Add(s, task);
            if exists k :: 0 <= k < |s.slots| && s.slots[k].Free? then
              exists k ::
                && 0 <= k < |s.slots| && s.slots[k].Free? && s'.slots == s.slots[k := Used(task)]
                && (forall j :: 0 <= j < k ==> s.slots[j].Used?)
                && s'.count == s.count + 1 && s'.current == (if s.count == 0 then k else s.current)
                && s'.loaded == s.loaded
            else s' == s
  {
    var k := FirstFree(s.slots);
    if k < |s.slots| { assert Add(s, task).slots == s.slots[k := Used(task)]; }
  }

  // Removing one leaves every other one where it is.
  lemma RemoveEffect(s: System, k: nat)
    requires s.Has(k) && s.count > 0
    ensures var s' := Remove(s, k);
            && |s'.slots| == |s.slots| && s'.slots[k].Free? && s'.count == s.count - 1
            && (forall j :: 0 <= j < |s.slots| && j != k ==> s'.slots[j] == s.slots[j])
            && s'.current == s.current && s'.loaded == s.loaded
  {
  }

  // ---------- runs ----------

  datatype Event = Spawn(task: Info) | Kill(k: nat) | Timer(frame: Frame)

  // A full list and a switch without a task to go to are panics, which end the
  // run. Killing the current task is not part of this model.
  predicate Possible(s: System, e: Event) {
    match e
    case Spawn(task) => New(task) && FirstFree(s.slots) < |s.slots|
    case Kill(k) => s.Has(k) && k != s.current && s.count > 0
    case Timer(frame) => s.Has(s.current) && Tick(s, frame).1 != Halt
  }

  function Step(s: System, e: Event): System
    requires Possible(s, e)
  {
    match e
    case Spawn(task) => Add(s, task)
    case Kill(k) => Remove(s, k)
    case Timer(frame) => Tick(s, frame).0
  }

  ghost predicate IsRun(s: System, run: seq<Event>)
    decreases |run|
  {
    run != [] ==> Possible(s, run[0]) && IsRun(Step(s, run[0]), run[1..])
  }

  function After(s: System, run: seq<Event>): System
    requires IsRun(s, run)
    decreases |run|
  {
    if run == [] then s else After(Step(s, run[0]), run[1..])
  }

  // Which events go on, told from the state before them.
  lemma EventsGoOn(s: System, e: Event)
    requires Good(s)
    ensures Possible(s, e) <==>
            match e
            case Spawn(task) => New(task) && exists k :: 0 <= k < |s.slots| && s.slots[k].Free?
            case Kill(k) => s.Has(k) && k != s.current
            case Timer(frame) => s.At(s.current).left > 0 || exists k :: GoesOn(s, frame, k)
  {
    hide Count, GoesOn, Switch;
    CountUsed(s.slots, s.current);
    if e.Timer? && Expires(s) { TickOutcome(s, e.frame); }
  }

  lemma StepKeeps(s: System, e: Event)
    requires Good(s) && Possible(s, e)
    ensures Good(Step(s, e))
  {
    match e
    case Spawn(task) => AddKeeps(s, task);
    case Kill(k) => RemoveKeeps(s, k);
    case Timer(frame) => TickKeeps(s, frame);
  }

  lemma {:induction false} RunKeeps(s: System, run: seq<Event>)
    requires Good(s) && IsRun(s, run)
    ensures Good(After(s, run))
    decreases |run|
  {
    if run != [] {
      StepKeeps(s, run[0]);
      RunKeeps(Step(s, run[0]), run[1..]);
    }
  }

  // The frame a task is to go on with, told from the history alone: the one it
  // was last interrupted with when its slice was over, or else the one it was
  // created with.
  function FrameAfter(s: System, e: Event, k: nat, before: Frame): Frame {
    match e
    case Spawn(task) => if k == FirstFree(s.slots) then task.image else before
    case Kill(_) => before
    case Timer(frame) => if k == s.current && s.Has(k) && Expires(s) then frame else before
  }

  ghost function LastFrame(s: System, run: seq<Event>, k: nat, before: Frame): Frame
    requires IsRun(s, run)
    decreases |run|
  {
    if run == [] then before
    else LastFrame(Step(s, run[0]), run[1..], k, FrameAfter(s, run[0], k, before))
  }

  // The scheduler keeps, for a task that is not running, this frame.
  predicate Keeps(s: System, k: nat, frame: Frame) { s.Has(k) && k != s.current ==> s.At(k).regs == frame }

  lemma FrameStep(s: System, e: Event, k: nat, before: Frame)
    requires Good(s) && Possible(s, e) && Keeps(s, k, before)
    ensures Keeps(Step(s, e), k, FrameAfter(s, e, k, before))
  {
    hide Count;
    if e.Timer? && Expires(s) {
      ScanFirstEven(s.Put(s.current, Parked(s.At(s.current), e.frame)).slots, 0);
    }
    if e.Spawn? { CountUsed(s.slots, s.current); }
  }

  lemma {:induction false} KeptFrame(s: System, run: seq<Event>, k: nat, before: Frame)
    requires Good(s) && IsRun(s, run) && Keeps(s, k, before)
    ensures Keeps(After(s, run), k, LastFrame(s, run, k, before))
    decreases |run|
  {
    if run != [] {
      hide Good, Keeps, FrameAfter, Possible, Step;
      StepKeeps(s, run[0]);
      FrameStep(s, run[0], k, before);
      KeptFrame(Step(s, run[0]), run[1..], k, FrameAfter(s, run[0], k, before));
    }
  }

  // Whatever happened before, a switch goes on with exactly the frame the task
  // was last switched out with, or enters it with the one it was created with.
  lemma ResumesWhereItStopped(s: System, run: seq<Event>, frame: Frame, before: Frame)
    requires Good(s) && IsRun(s, run)
    requires var s1 := After(s, run);
             s1.Has(s1.current) && Keeps(s, Tick(s1, frame).0.current, before)
    ensures var s1 := After(s, run);
            var (s2, outcome) := Tick(s1, frame);
            var last := FrameAfter(s1, Timer(frame), s2.current, LastFrame(s, run, s2.current, before));
            && (outcome.Restore? ==> outcome.frame == last)
            && (outcome.Enter? ==> outcome.frame == last && s1.Has(s2.current) && s1.At(s2.current).state == Created)
  {
    hide Count, LastFrame;
    RunKeeps(s, run);
    var s1 := After(s, run);
    KeptFrame(s, run, Tick(s1, frame).0.current, before);
    if Expires(s1) {
      ScanFirstEven(s1.Put(s1.current, Parked(s1.At(s1.current), frame)).slots, 0);
    }
  }

  // ---------- slices ----------

  function Timers(run: seq<Event>): nat {
    if run == [] then 0 else (if run[0].Timer? then 1 else 0) + Timers(run[1..])
  }

  // A task that has just been given the processor has a whole slice.
  lemma FreshSlice(s: System, frame: Frame)
    requires Good(s)
    ensures var (s', outcome) := Tick(s, frame);
            outcome.Restore? || outcome.Enter? ==>
              s'.Has(s'.current) && s'.At(s'.current).left == s'.At(s'.current).quantum
  {
    hide Count;
    if Expires(s) {
      ScanFirstEven(s.Put(s.current, Parked(s.At(s.current), frame)).slots, 0);
    }
  }

  lemma SliceStep(s: System, e: Event)
    requires Good(s) && Possible(s, e) && (e.Timer? ==> s.At(s.current).left > 0)
    ensures var s' := Step(s, e);
            && s'.current == s.current && s'.Has(s.current)
            && s'.At(s.current).left == s.At(s.current).left - (if e.Timer? then 1 else 0)
            && s'.At(s.current).quantum == s.At(s.current).quantum
            && (e.Timer? ==> Tick(s, e.frame).1 == Continue)
  {
    hide Count;
    CountUsed(s.slots, s.current);
  }

  // It keeps the processor, whoever is added or killed, for as many ticks as
  // it has left, and the tick after them takes it away.
  lemma {:induction false} SliceLength(s: System, run: seq<Event>)
    requires Good(s) && IsRun(s, run) && Timers(run) <= s.At(s.current).left
    ensures var s' := After(s, run);
            && s'.current == s.current && s'.Has(s.current)
            && s'.At(s.current).left == s.At(s.current).left - Timers(run)
            && (Expires(s') <==> Timers(run) == s.At(s.current).left)
            && forall frame :: Tick(s', frame).1 == Continue <==> Timers(run) < s.At(s.current).left
    decreases |run|
  {
    hide Count;
    if run != [] {
      StepKeeps(s, run[0]);
      SliceStep(s, run[0]);
      SliceLength(Step(s, run[0]), run[1..]);
    }
  }

  // ---------- what the two-step scan costs ----------

  lemma FirstStays(s: System, e: Event)
    requires Good(s) && s.current == 0 && Possible(s, e)
    ensures var s' := Step(s, e); s'.current == 0 && s'.Has(0) && SameTask(s.At(0), s'.At(0))
  {
    hide Count;
    CountUsed(s.slots, 0);
    if e.Timer? && Expires(s) {
      ScanFirstEven(s.Put(0, Parked(s.At(0), e.frame)).slots, 0);
    }
  }

  // Once the task in slot 0 runs, no other ever does.
  lemma {:induction false} FirstForever(s: System, run: seq<Event>)
    requires Good(s) && s.current == 0 && IsRun(s, run)
    ensures var s' := After(s, run); s'.current == 0 && s'.Has(0) && SameTask(s.At(0), s'.At(0))
    decreases |run|
  {
    if run != [] {
      StepKeeps(s, run[0]);
      FirstStays(s, run[0]);
      FirstForever(Step(s, run[0]), run[1..]);
    }
  }

  // ---------- the start ----------

  function Empty(n: nat): (s: seq<Slot>)
    ensures |s| == n && forall k :: 0 <= k < n ==> s[k] == Free
    ensures Count(s) == 0
  {
    if n == 0 then [] else
      var less := Empty(n - 1);
      assert (less + [Free])[..n - 1] == less;
      less + [Free]
  }

  // tasking_init: one task is added and entered.
  function Boot(task: Info, loaded: nat): System
    requires New(task)
  {
    var s := Add(System(Empty(NPROC), 0, 0, loaded), task);
    s.Put(0, task.(state := Alive))
  }

  // From the start on, whatever is spawned or killed, the first task is the
  // current one. A tick lets it go on while it has time left, and otherwise
  // restores the frame just interrupted, or panics if its stack is used up: no
  // other task is ever entered.
  lemma BootRunsOneTask(task: Info, loaded: nat, run: seq<Event>, frame: Frame)
    requires New(task) && IsRun(Boot(task, loaded), run)
    ensures var s := After(Boot(task, loaded), run);
            && s.current == 0 && s.Has(0)
            && Tick(s, frame).1 ==
               (if !Expires(s) then Continue else if frame.esp > task.stack then Restore(frame) else Halt)
            && (Tick(s, frame).1 != Halt ==> Tick(s, frame).0.current == 0)
  {
    hide Count, Boot;
    var b := Boot(task, loaded);
    BootIsGood(task, loaded);
    RunKeeps(b, run);
    FirstForever(b, run);
    var s := After(b, run);
    if Expires(s) {
      TickOutcome(s, frame);
      assert GoesTo(s, 0);
      assert GoesOn(s, frame, 0) <==> frame.esp > task.stack;
      assert forall k :: GoesOn(s, frame, k) ==> k == 0;
      hide Switch;
    }
  }

  // The states in which a task finds another's page directory are therefore not
  // reached from the start. Here is one: slot 0 is new, slot 2 runs.
  lemma ForeignDirectory(first: Info, running: Info, loaded: nat, frame: Frame)
    requires New(first) && first.regs.esp > first.stack && first.pgd != loaded
    requires running.state == Alive && running.left == 0
    ensures var s := System(Empty(NPROC)[0 := Used(first)][2 := Used(running)], 2, 2, loaded);
            && Good(s) && Expires(s)
            && var (s', outcome) := Tick(s, frame);
               outcome == Enter(first.image) && s'.current == 0 && s'.loaded != first.pgd
  {
    hide Count, Empty, Scan;
    var empty := Empty(NPROC);
    CountUpdate(empty, 0, Used(first));
    CountUpdate(empty[0 := Used(first)], 2, Used(running));
    var slots := empty[0 := Used(first)][2 := Used(running)];
    var s := System(slots, 2, 2, loaded);
    var parked := s.Put(2, Parked(running, frame)).slots;
    ScanFirstEven(parked, 0);
    assert parked[0] == Used(first) && Scan(parked, 0) == 0;
  }

  lemma BootIsGood(task: Info, loaded: nat)
    requires New(task)
    ensures var s := Boot(task, loaded);
            Good(s) && s.current == 0 && s.At(0) == task.(state := Alive) && s.loaded == loaded
    ensures forall k :: 0 < k < NPROC ==> Boot(task, loaded).slots[k].Free?
  {
    var empty := Empty(NPROC);
    CountUpdate(empty, 0, Used(task));
    CountUpdate(empty[0 := Used(task)], 0, Used(task.(state := Alive)));
  }
}
