// The lock is never stuck: whoever holds it can finish and release it, and
// whoever waits for it while it is free can take it and complete its call.
module HeapProgress {
  import opened ByteSeqs
  import opened Wrappers
  import opened HeapModel
  import opened HeapSafety
  import opened HeapContents
  import opened HeapSections
  import opened HeapThreads
  import opened HeapTraces

  // Thread t can make these steps, one after the other.
  ghost predicate CanDo(s: State, t: nat, acts: seq<Action>)
    decreases |acts|
  {
    acts != [] ==> Enabled(s, t, acts[0]) && CanDo(Next(s, t, acts[0]), t, acts[1..])
  }

  ghost function Do(s: State, t: nat, acts: seq<Action>): State
    requires CanDo(s, t, acts)
    decreases |acts|
  {
    if acts == [] then s else Do(Next(s, t, acts[0]), t, acts[1..])
  }

  lemma DoFirst(s: State, t: nat, a: Action, acts: seq<Action>)
    requires Enabled(s, t, a) && CanDo(Next(s, t, a), t, acts)
    ensures CanDo(s, t, [a] + acts) && Do(s, t, [a] + acts) == Do(Next(s, t, a), t, acts)
  {
    hide Enabled, Next;
    assert ([a] + acts)[1..] == acts;
  }

  // s' is s with thread t outside and the lock free, and the shared heap the
  // serial one but for the counter of warnings.
  ghost predicate Finished(s: State, t: nat, serial: Heap, s': State)
    requires t < |s.threads|
  {
    && !s'.flag && s'.threads == s.threads[t := Outside]
    && s'.serial == serial && SameButWarnings(s'.heap, serial)
  }

  function Left(p: Phase): nat
    requires p.Writing?
  {
    |p.pending| * 3 + match p.warning case Due => 2 case Fetched(_, _) => 1 case NoWarning => 0
  }

  lemma WriterUnlocks(s: State, t: nat)
    requires Inv(s) && t < |s.threads| && s.threads[t].Writing?
    requires s.threads[t].pending == {} && s.threads[t].warning.NoWarning?
    ensures Enabled(s, t, Unlock) && Finished(s, t, s.serial, Next(s, t, Unlock))
  {
    hide Valid, WritingOk, Calls;
    var s' := Next(s, t, Unlock);
    UnlockKeeps(s, t);
    assert In(s.threads[t]);
    assert forall u :: 0 <= u < |s.threads| && u != t ==> !In(s.threads[u]);
  }

  // A thread that writes back can go on until it has released the lock.
  lemma {:induction false} WriterFinishes(s: State, t: nat) returns (acts: seq<Action>)
    requires Inv(s) && t < |s.threads| && s.threads[t].Writing?
    ensures CanDo(s, t, acts) && Finished(s, t, s.serial, Do(s, t, acts))
    decreases Left(s.threads[t])
  {
    hide Inv, WriteField;
    var p := s.threads[t];
    if p.pending == {} && p.warning.NoWarning? {
      WriterUnlocks(s, t);
      acts := [Unlock];
      DoFirst(s, t, Unlock, []);
    } else {
      var a := Unlock;
      if f :| f in p.pending { a := Write(f); } else { a := if p.warning.Due? then Fetch else Bump; }
      var s1 := Next(s, t, a);
      NextKeeps(s, t, a);
      assert s1.threads == s.threads[t := s1.threads[t]];
      var rest := WriterFinishes(s1, t);
      DoFirst(s, t, a, rest);
      acts := [a] + rest;
    }
  }

  // A thread that has the lock performs its section, whatever it is granted and
  // whatever word it finds.
  lemma HolderFinishes(s: State, t: nat, grant: nat, word: nat) returns (acts: seq<Action>)
    requires Inv(s) && Enabled(s, t, Load(grant, word))
    ensures CanDo(s, t, acts)
    ensures Finished(s, t, Perform(s.threads[t].section, s.serial, grant, word), Do(s, t, acts))
  {
    hide Inv, Perform, GrantFits, KeepsTrack, Made;
    var s1 := Next(s, t, Load(grant, word));
    NextKeeps(s, t, Load(grant, word));
    var rest := WriterFinishes(s1, t);
    DoFirst(s, t, Load(grant, word), rest);
    acts := [Load(grant, word)] + rest;
  }

  // With the lock free, a waiting thread can take it and complete its call.
  lemma WaiterFinishes(s: State, t: nat, grant: nat, word: nat) returns (acts: seq<Action>)
    requires Inv(s) && !s.flag && t < |s.threads| && s.threads[t].Spinning?
    requires GrantFits(s.threads[t].section, s.serial, grant) && KeepsTrack(s.threads[t].section, s.serial, word)
    ensures CanDo(s, t, acts)
    ensures Finished(s, t, Perform(s.threads[t].section, s.serial, grant, word), Do(s, t, acts))
  {
    hide Inv, Perform, GrantFits, KeepsTrack;
    var s1 := Next(s, t, TestAndSet);
    NextKeeps(s, t, TestAndSet);
    HolderSees(s1, t);
    FitsShared(s1, t, grant, word);
    var rest := HolderFinishes(s1, t, grant, word);
    DoFirst(s, t, TestAndSet, rest);
    acts := [TestAndSet] + rest;
    assert s1.threads[t := Outside] == s.threads[t := Outside];
  }

  lemma FitsShared(s: State, t: nat, grant: nat, word: nat)
    requires t < |s.threads| && s.threads[t].Holding? && SameButWarnings(s.heap, s.serial)
    requires GrantFits(s.threads[t].section, s.serial, grant) && KeepsTrack(s.threads[t].section, s.serial, word)
    ensures Enabled(s, t, Load(grant, word))
  {
    hide Live, Release;
  }

  // In every state of every interleaving in which the lock is held, its holder
  // can release it by steps of its own: no thread waits for another.
  lemma LockIsReleased(ss: seq<State>, steps: seq<(nat, Action)>, i: nat)
    requires Trace(ss, steps) && Start(ss[0]) && i <= |steps| && ss[i].flag
    ensures exists t: nat, acts :: CanDo(ss[i], t, acts) && !Do(ss[i], t, acts).flag
  {
    hide Start, Enabled, Next, Valid, WritingOk, OneInside, Perform;
    var s := ss[i];
    InvOverTrace(ss, steps, i);
    var t :| 0 <= t < |s.threads| && In(s.threads[t]);
    if s.threads[t].Writing? {
      var acts := WriterFinishes(s, t);
      assert CanDo(s, t, acts) && !Do(s, t, acts).flag;
    } else {
      LoadsNothing(s, t);
      var acts := HolderFinishes(s, t, 0, 0);
      assert CanDo(s, t, acts) && !Do(s, t, acts).flag;
    }
  }

  lemma LoadsNothing(s: State, t: nat)
    requires t < |s.threads| && s.threads[t].Holding?
    ensures Enabled(s, t, Load(0, 0))
  {
    hide Live, Release;
  }

  // In every state in which the lock is free, each waiting call can be completed
  // by steps of its own thread, as if it were alone.
  lemma WaitingCallCompletes(ss: seq<State>, steps: seq<(nat, Action)>, i: nat, t: nat, grant: nat, word: nat)
    requires Trace(ss, steps) && Start(ss[0]) && i <= |steps| && !ss[i].flag
    requires t < |ss[i].threads| && ss[i].threads[t].Spinning?
    requires GrantFits(ss[i].threads[t].section, ss[i].serial, grant)
    requires KeepsTrack(ss[i].threads[t].section, ss[i].serial, word)
    ensures exists acts :: CanDo(ss[i], t, acts) &&
              Finished(ss[i], t, Perform(ss[i].threads[t].section, ss[i].serial, grant, word), Do(ss[i], t, acts))
  {
    hide Start, Enabled, Next, Inv, GrantFits, KeepsTrack, Perform, Finished;
    InvOverTrace(ss, steps, i);
    var acts := WaiterFinishes(ss[i], t, grant, word);
  }

  // A thread outside can make any call at once.
  lemma CallsStart(s: State, t: nat)
    requires t < |s.threads| && s.threads[t].Outside?
    ensures forall req :: Fits32(req) ==> Enabled(s, t, CallMalloc(req))
    ensures forall p :: 0 < p < ADDRESS_SPACE ==> Enabled(s, t, CallFree(p))
    ensures forall p, size :: 0 < p < ADDRESS_SPACE ==> Enabled(s, t, CallResize(p, size))
    ensures Enabled(s, t, Fetch)
    ensures forall p, offset, value :: MayStore(s.serial, p, offset) ==> Enabled(s, t, Store(p, offset, value))
  {
  }
}
