/** The registry shared by threads: every interleaving of the spin lock, of the
    steps made under it, and of the allocations and frees made outside it. */
module HeapLock {
  import opened HeapTable
  import opened HeapMachine

  type Tid = nat

  /** An operation done, or a leaf set by compiled code. */
  datatype Event = Event(op: Op, answer: Answer) | Wrote(data: Address, leaf: nat)

  ghost function Apply(e: Event, m: Registry): Registry {
    match e case Event(op, _) => Effect(op, m) case Wrote(data, k) => WithLeaf(m, data, k)
  }

  /** The map after a history, one event at a time. */
  ghost function Replay(log: seq<Event>): Registry {
    if log == [] then map[] else Apply(log[|log| - 1], Replay(log[..|log| - 1]))
  }

  /** The lock flag, the shared variables, where each thread is, and the
      operations done. */
  datatype State = State(locked: bool, mem: Mem, threads: map<Tid, Pc>, log: seq<Event>, aborted: bool)

  ghost predicate Init(s: State) {
    && !s.locked && !s.aborted && s.mem == Mem([], 0, 0, map[]) && s.log == []
    && forall i :: i in s.threads ==> s.threads[i].Idle?
  }

  datatype Step =
    | Call(i: Tid, op: Op, shadow: Handle)  // a call; NEW allocates its buffer
    | NoBuffer(i: Tid, op: Op)              // NEW whose buffer cannot be allocated
    | Spin(i: Tid)                          // the flag was set
    | Acquire(i: Tid)                       // the flag was clear and is now set
    | Inner(i: Tid, got: bool)              // one read or store under the lock
    | Unlock(i: Tid)
    | Discard(i: Tid)                       // DISPOSE frees the buffer
    | SetLeafOf(i: Tid, data: Address, p: nat, k: nat)  // compiled code sets a leaf, without the lock
    | Abort(i: Tid)

  /** NEW of no address or no leaves returns at once. */
  predicate Idles(op: Op) { op.New? && (op.data == NULL || op.n <= 0) }

  /** No one holds h: what calloc returns. */
  ghost predicate Unheld(s: State, h: Handle) {
    h !in s.mem.heap && forall j :: j in s.threads ==> h !in Hands(s.threads[j])
  }

  ghost predicate Next(s: State, st: Step, s': State) {
    && !s.aborted && st.i in s.threads
    && var pc := s.threads[st.i];
    match st
    case Call(i, op, h) =>
      && pc.Idle? && !(op.New? && op.data == TOMBSTONE)
      && (if Idles(op) then s' == s.(log := s.log + [Event(op, Nothing)])
          else (op.New? ==> Unheld(s, h)) && s' == s.(threads := s.threads[i := Ready(op, h)]))
    case NoBuffer(i, op) => pc.Idle? && op.New? && !Idles(op) && s' == s.(threads := s.threads[i := Aborting({})])
    case Spin(i) => pc.Ready? && s.locked && s' == s
    case Acquire(i) =>
      pc.Ready? && !s.locked && s' == s.(locked := true, threads := s.threads[i := Entered(pc.op, pc.shadow)])
    case Inner(i, got) =>
      && Inside(pc) && !AtUnlock(pc)
      && var (pc', m') := Advance(pc, s.mem, got); s' == s.(mem := m', threads := s.threads[i := pc'])
    case Unlock(i) =>
      && AtUnlock(pc)
      && s' == (if pc.Failing? then s.(locked := false, threads := s.threads[i := Aborting(Hands(pc))])
                else s.(locked := false, threads := s.threads[i := if pc.mine == {} then Idle else Freeing(pc.mine)],
                        log := s.log + [Event(pc.op, pc.answer)]))
    case Discard(i) => pc.Freeing? && s' == s.(threads := s.threads[i := Idle])
    case SetLeafOf(i, data, p, k) =>
      && pc.Idle? && Settable(s.mem, p, data, k)
      && (forall j :: j in s.threads && Inside(s.threads[j]) && !s.threads[j].Stuck? ==> Undisturbed(s.threads[j].op, data))
      && s' == s.(mem := Touched(s.mem, s.mem.slots[p].shadow, k), log := s.log + [Wrote(data, k)])
    case Abort(i) => pc.Aborting? && s' == s.(aborted := true)
  }

  /** A finite run: states joined by steps of any threads, in any order. */
  ghost predicate Run(states: seq<State>, steps: seq<Step>) {
    && |states| == |steps| + 1 && Init(states[0])
    && forall k :: 0 <= k < |steps| ==> Next(states[k], steps[k], states[k + 1])
  }

  // ---- what every reachable state satisfies ----

  ghost predicate Excludes(s: State) {
    && (forall i, j :: i in s.threads && j in s.threads && Inside(s.threads[i]) && Inside(s.threads[j]) ==> i == j)
    && (s.locked <==> exists i :: i in s.threads && Inside(s.threads[i]))
  }

  /** Every buffer is in one place: the table or one thread's hands. */
  ghost predicate Apart(s: State) {
    && (forall i, h :: i in s.threads && h in Hands(s.threads[i]) ==> h !in s.mem.heap)
    && (forall i, j, h :: i in s.threads && j in s.threads && h in Hands(s.threads[i]) && h in Hands(s.threads[j]) ==> i == j)
  }

  /** Every operation so far was answered from the map of the operations before
      it: they took effect one at a time, in the order they left the lock. */
  ghost predicate Atomic(log: seq<Event>) {
    forall k :: 0 <= k < |log| && log[k].Event? ==> log[k].answer == AnswerOf(log[k].op, Replay(log[..k]))
  }

  /** Whenever the lock is free, the table is sound and stands for the map of
      the operations done. */
  ghost predicate Settled(s: State) {
    !s.locked ==> Sound(s.mem, Replay(s.log))
  }

  /** The thread inside is where its program point says. */
  ghost predicate OnTheWay(s: State) {
    forall i :: i in s.threads && Inside(s.threads[i]) ==> Stands(s.threads[i], s.mem, Replay(s.log))
  }

  /** A thread waiting for the lock made a call that needs it. */
  ghost predicate Waiting(s: State) {
    forall i :: i in s.threads && s.threads[i].Ready? ==> !Idles(s.threads[i].op) && !(s.threads[i].op.New? && s.threads[i].op.data == TOMBSTONE)
  }

  ghost predicate Safe(s: State) {
    Excludes(s) && Apart(s) && Settled(s) && OnTheWay(s) && Waiting(s) && Atomic(s.log)
  }

  lemma InitSafe(s: State)
    requires Init(s)
    ensures Safe(s)
  {
    assert LiveSet([]) == {};
  }

  lemma AtomicSnoc(log: seq<Event>, e: Event)
    requires Atomic(log) && (e.Event? ==> e.answer == AnswerOf(e.op, Replay(log)))
    ensures Atomic(log + [e]) && Replay(log + [e]) == Apply(e, Replay(log))
  {
    var log' := log + [e];
    assert log'[..|log|] == log;
    forall k | 0 <= k < |log'| && log'[k].Event?
      ensures log'[k].answer == AnswerOf(log'[k].op, Replay(log'[..k]))
    {
      if k < |log| { assert log'[..k] == log[..k]; }
    }
  }

  lemma {:induction false} ReplayCounted(log: seq<Event>)
    ensures Counted(Replay(log))
  {
    if log != [] { ReplayCounted(log[..|log| - 1]); }
  }

  /** A leaf set without the lock takes effect at once, whoever is inside and
      however far: it commutes with all that is still to be done there. */
  lemma LeafSafe(s: State, st: Step, s': State)
    requires Safe(s) && st.SetLeafOf? && Next(s, st, s')
    ensures Safe(s')
  {
    hide Sound, Atomic, Replay, Hands, Inside, Stands, WithLeaf;
    AtomicSnoc(s.log, Wrote(st.data, st.k));
    ReplayCounted(s.log);
    if !s.locked { SoundTouch(s.mem, Replay(s.log), st.p, st.data, st.k); }
    forall j | j in s'.threads && Inside(s'.threads[j])
      ensures Stands(s'.threads[j], s'.mem, Replay(s'.log))
    {
      StuckNever(s.threads[j], s.mem, Replay(s.log));
      StandsTouch(s.threads[j], s.mem, Replay(s.log), st.p, st.data, st.k);
    }
  }

  lemma StuckNever(pc: Pc, m: Mem, r: Registry)
    requires Stands(pc, m, r)
    ensures !pc.Stuck?
  {
  }

  /** Steps outside the lock leave whoever is inside where it was. */
  lemma OutsideSafe(s: State, i: Tid, pc': Pc, s': State)
    requires Safe(s) && i in s.threads && !Inside(s.threads[i]) && !Inside(pc')
    requires s'.locked == s.locked && s'.mem == s.mem && s'.threads == s.threads[i := pc']
    requires Atomic(s'.log) && Replay(s'.log) == Replay(s.log)
    requires pc'.Ready? ==> !Idles(pc'.op) && !(pc'.op.New? && pc'.op.data == TOMBSTONE)
    requires forall h :: h in Hands(pc') ==> h in Hands(s.threads[i]) || Unheld(s, h)
    ensures Safe(s')
  {
    hide Stands, Sound, Atomic, Replay, Hands, Inside;
    forall j | j in s'.threads && Inside(s'.threads[j])
      ensures s.threads[j] == s'.threads[j]
    {
    }
    if s.locked {
      var j :| j in s.threads && Inside(s.threads[j]);
      assert Inside(s'.threads[j]);
    }
  }

  lemma CallSafe(s: State, st: Step, s': State)
    requires Safe(s) && st.Call? && Next(s, st, s')
    ensures Safe(s')
  {
    hide Safe, Sound;
    if Idles(st.op) {
      IdleEffect(s, st.op);
      OutsideSafe(s, st.i, Idle, s');
    } else {
      SafeLog(s);
      OutsideSafe(s, st.i, Ready(st.op, st.shadow), s');
    }
  }

  lemma IdleEffect(s: State, op: Op)
    requires Safe(s) && Idles(op)
    ensures Atomic(s.log + [Event(op, Nothing)]) && Replay(s.log + [Event(op, Nothing)]) == Replay(s.log)
  {
    hide Atomic, Replay;
    AtomicSnoc(s.log, Event(op, Nothing));
  }

  lemma AcquireSafe(s: State, st: Step, s': State)
    requires Safe(s) && st.Acquire? && Next(s, st, s')
    ensures Safe(s')
  {
    hide Sound, Atomic, Replay;
    assert forall j :: j in s.threads ==> !Inside(s.threads[j]);
    assert Inside(s'.threads[st.i]);
    assert Hands(s'.threads[st.i]) == Hands(s.threads[st.i]);
  }

  lemma InnerSafe(s: State, st: Step, s': State)
    requires Safe(s) && st.Inner? && Next(s, st, s')
    ensures Safe(s')
  {
    hide Sound, Atomic, Replay, Advance, Stands, Hands, Inside;
    var pc := s.threads[st.i];
    AdvanceKeeps(pc, s.mem, st.got, Replay(s.log));
    assert Inside(s'.threads[st.i]);
    InnerApart(s, st, s');
    assert forall j :: j in s'.threads && j != st.i ==> s'.threads[j] == s.threads[j];
    InsideIsBusy(s'.threads[st.i]);
  }

  lemma InsideIsBusy(pc: Pc)
    requires Inside(pc)
    ensures !pc.Ready?
  {
  }

  lemma InnerApart(s: State, st: Step, s': State)
    requires Apart(s) && st.Inner? && Next(s, st, s')
    requires Passes(s.threads[st.i], s.mem, s'.threads[st.i], s'.mem)
    ensures Apart(s')
  {
    hide Advance, Hands, Inside;
  }

  lemma UnlockSafe(s: State, st: Step, s': State)
    requires Safe(s) && st.Unlock? && Next(s, st, s')
    ensures Safe(s')
  {
    hide Sound, Atomic, Replay, Effect, AnswerOf, Hands;
    var pc := s.threads[st.i];
    if pc.Storing? {
      NothingLeft(s.mem);
      AtomicSnoc(s.log, Event(pc.op, pc.answer));
    }
    assert Hands(s'.threads[st.i]) == Hands(pc) by { HandsOver(pc); }
    forall j | j in s'.threads
      ensures !Inside(s'.threads[j])
    {
      if j != st.i { assert s'.threads[j] == s.threads[j]; }
    }
  }

  lemma HandsOver(pc: Pc)
    ensures pc.Failing? ==> Hands(Aborting(Hands(pc))) == Hands(pc)
    ensures pc.Storing? ==> Hands(if pc.mine == {} then Idle else Freeing(pc.mine)) == Hands(pc)
  {
  }

  lemma StepSafe(s: State, st: Step, s': State)
    requires Safe(s) && Next(s, st, s')
    ensures Safe(s')
  {
    hide Safe, Advance;
    match st
    case Call(_, _, _) => CallSafe(s, st, s');
    case NoBuffer(i, _) => SafeLog(s); OutsideSafe(s, i, Aborting({}), s');
    case Spin(_) =>
    case Acquire(_) => AcquireSafe(s, st, s');
    case Inner(_, _) => InnerSafe(s, st, s');
    case Unlock(_) => UnlockSafe(s, st, s');
    case SetLeafOf(_, _, _, _) => LeafSafe(s, st, s');
    case Discard(i) => SafeLog(s); OutsideSafe(s, i, Idle, s');
    case Abort(_) => AbortSafe(s, s');
  }

  lemma SafeLog(s: State)
    requires Safe(s)
    ensures Atomic(s.log)
  {
  }

  lemma AbortSafe(s: State, s': State)
    requires Safe(s) && s' == s.(aborted := true)
    ensures Safe(s')
  {
  }

  /** Main result: in every state of every interleaving, at most one thread is
      inside, it stands where its program point says and has not left the
      table, no buffer is shared or lost, the table is sound whenever the lock
      is free, and the operations have been answered as if done one at a time. */
  lemma {:induction false} RunSafe(states: seq<State>, steps: seq<Step>, k: nat)
    requires Run(states, steps) && k < |states|
    ensures Safe(states[k])
  {
    hide Safe, Next;
    if k == 0 {
      InitSafe(states[0]);
    } else {
      RunSafe(states, steps, k - 1);
      StepSafe(states[k - 1], steps[k - 1], states[k]);
    }
  }

  /** No run accesses a slot outside the table. */
  lemma NeverStuck(states: seq<State>, steps: seq<Step>, k: nat, i: Tid)
    requires Run(states, steps) && k < |states| && i in states[k].threads
    ensures !states[k].threads[i].Stuck?
  {
    RunSafe(states, steps, k);
    assert Inside(Stuck) && !Stands(Stuck, states[k].mem, Replay(states[k].log));
  }

  /** In every reachable state with the lock taken, the thread inside comes to
      unlock() by steps of its own. */
  lemma HolderLeaves(states: seq<State>, steps: seq<Step>, k: nat, got: bool) returns (i: Tid, pc: Pc, m: Mem)
    requires Run(states, steps) && k < |states| && states[k].locked
    ensures i in states[k].threads && Inside(states[k].threads[i])
    ensures Reaches(got, states[k].threads[i], states[k].mem, pc, m) && AtUnlock(pc)
  {
    hide Reaches, Stands, Sound;
    RunSafe(states, steps, k);
    i :| i in states[k].threads && Inside(states[k].threads[i]);
    pc, m := SectionEnds(got, states[k].threads[i], states[k].mem, Replay(states[k].log));
  }

  // ---- what a lookup means, in terms of the history ----

  /** The event changes what is registered under data. */
  predicate Touches(e: Event, data: Address) {
    match e
    case Wrote(_, _) => false
    case Event(op, _) => !op.PartAt? && op.data == data && (op.New? ==> data != 0 && op.n > 0)
  }

  /** log[q] registered data with n leaves, and nothing touched data since. */
  ghost predicate LastRegistered(log: seq<Event>, q: int, data: Address, n: int) {
    && 0 <= q < |log| && log[q].Event? && log[q].op == New(data, n) && Touches(log[q], data)
    && forall j :: q < j < |log| ==> !Touches(log[j], data)
  }

  /** A lookup finds tracked state exactly when the last operation to touch its
      address was a registration with the same leaf count, and the part lies
      inside those leaves; otherwise it gets initialized fallback leaves. */
  lemma {:induction false} LookupMeans(log: seq<Event>, data: Address, n: int, offset: int, count: int)
    ensures AnswerOf(PartAt(data, n, offset, count), Replay(log)) ==
            if (exists q :: LastRegistered(log, q, data, n)) && 0 <= offset && 0 <= count && offset + count <= n
            then Looked(Tracked(data, offset)) else Looked(Fallback(Ones(count)))
  {
    KnownMeans(log, data, n);
  }

  ghost predicate Known(m: Registry, data: Address, n: int) {
    data in m && !m[data].released && m[data].n == n
  }

  lemma {:induction false} KnownMeans(log: seq<Event>, data: Address, n: int)
    ensures Known(Replay(log), data, n) <==> exists q :: LastRegistered(log, q, data, n)
  {
    if log != [] {
      var last := |log| - 1;
      var prev, e := log[..last], log[last];
      KnownMeans(prev, data, n);
      if Touches(e, data) {
        assert LastRegistered(log, last, data, n) <==> e.op == New(data, n);
        if q :| LastRegistered(log, q, data, n) { assert q == last; }
      } else {
        Untouched(e, Replay(prev), data, n);
        if q :| LastRegistered(prev, q, data, n) { assert LastRegistered(log, q, data, n); }
        if q :| LastRegistered(log, q, data, n) { assert LastRegistered(prev, q, data, n); }
      }
    }
  }

  lemma Untouched(e: Event, m: Registry, data: Address, n: int)
    requires !Touches(e, data)
    ensures Known(Apply(e, m), data, n) <==> Known(m, data, n)
  {
  }

  /** Main result for what INITCK is for: a tracked leaf reads as initialized if
      and only if it has been set since its address was registered. */
  lemma {:induction false} LeafMeans(log: seq<Event>, q: nat, data: Address, n: int, i: nat)
    requires LastRegistered(log, q, data, n) && i < n
    ensures var m := Replay(log);
            && data in m && !m[data].released && m[data].n == n && |m[data].leaves| == n
            && (m[data].leaves[i] <==> exists j :: q < j < |log| && log[j] == Wrote(data, i))
    decreases |log|
  {
    var last := |log| - 1;
    var prev, e := log[..last], log[last];
    if q < last {
      assert LastRegistered(prev, q, data, n);
      LeafMeans(prev, q, data, n, i);
      assert forall j :: q < j < last ==> log[j] == prev[j];
      if j :| q < j < last && prev[j] == Wrote(data, i) { assert log[j] == Wrote(data, i); }
      if e == Wrote(data, i) { assert log[last] == e; }
    }
  }
}
