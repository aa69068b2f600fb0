/** The critical sections of runtime/initck_heap.c one step at a time: a program
    point with its locals, one step for each slot read and each store, and what
    holds at every point from lock() to unlock(). */
module HeapMachine {
  import opened HeapTable

  datatype Op =
    | New(data: Address, n: int)
    | Dispose(data: Address)
    | Release(data: Address)
    | PartAt(data: Address, n: int, offset: int, count: int)

  datatype Answer = Nothing | Looked(leaves: Leaves)

  /** One operation on the map. */
  ghost function Effect(op: Op, m: Registry): Registry {
    match op
    case New(data, n) => Registered(m, data, n)
    case Dispose(data) => Disposed(m, data)
    case Release(data) => Released(m, data)
    case PartAt(_, _, _, _) => m
  }

  ghost function AnswerOf(op: Op, m: Registry): Answer {
    match op
    case PartAt(data, n, offset, count) => Looked(LookedUp(m, data, n, offset, count))
    case _ => Nothing
  }

  /** The shared variables. heap holds the buffers that belong to the table. */
  datatype Mem = Mem(slots: seq<Entry>, capacity: nat, occupied: nat, heap: Heap)

  function TableOf(m: Mem): Table { Table(m.slots, m.occupied, m.heap) }

  /** The memory is a sound table that stands for r. */
  ghost predicate Sound(m: Mem, r: Registry) {
    m.capacity == |m.slots| && Inv(TableOf(m)) && Abs(TableOf(m)) == r
  }

  // ---- single stores ----

  datatype Write =
    | SetKey(i: nat, key: Address)
    | SetShadow(i: nat, shadow: Handle)
    | SetCount(i: nat, n: int)
    | SetReleased(i: nat, released: bool)
    | SetOccupied(occupied: nat)
    | SetLeaf(shadow: Handle, k: nat)
    | Free(shadow: Handle)

  predicate InBounds(w: Write, m: Mem) {
    match w
    case SetOccupied(_) => true
    case SetLeaf(h, k) => h in m.heap && k < |m.heap[h]|
    case Free(h) => h in m.heap
    case _ => w.i < |m.slots|
  }

  function Store(w: Write, m: Mem): Mem
    requires InBounds(w, m)
  {
    match w
    case SetKey(i, k) => m.(slots := m.slots[i := m.slots[i].(key := k)])
    case SetShadow(i, h) => m.(slots := m.slots[i := m.slots[i].(shadow := h)])
    case SetCount(i, n) => m.(slots := m.slots[i := m.slots[i].(n := n)])
    case SetReleased(i, b) => m.(slots := m.slots[i := m.slots[i].(released := b)])
    case SetOccupied(u) => m.(occupied := u)
    case SetLeaf(h, k) => m.(heap := m.heap[h := m.heap[h][k := true]])
    case Free(h) => m.(heap := m.heap - {h})
  }

  /** The stores ws can be made one after the other. */
  predicate Fits(ws: seq<Write>, m: Mem) {
    ws != [] ==> InBounds(ws[0], m) && Fits(ws[1..], Store(ws[0], m))
  }

  function StoreAll(ws: seq<Write>, m: Mem): Mem
    requires Fits(ws, m)
  {
    if ws == [] then m else StoreAll(ws[1..], Store(ws[0], m))
  }

  /** The stores that fill in an entry whose key is set. */
  function EntryStores(p: nat, shadow: Handle, n: int): seq<Write> {
    [SetShadow(p, shadow)] + ([SetCount(p, n)] + ([SetReleased(p, false)] + []))
  }

  /** memset of the leaves from k on. */
  function LeafStores(shadow: Handle, k: nat, n: int): seq<Write>
    decreases n - k
  {
    if k >= n then [] else [SetLeaf(shadow, k)] + LeafStores(shadow, k + 1, n)
  }

  function DisposeStores(p: nat): seq<Write> { [SetKey(p, TOMBSTONE)] + EntryStores(p, 0, 0) }

  function ReleaseStores(p: nat, e: Entry): seq<Write> {
    if e.released then [] else LeafStores(e.shadow, 0, e.n) + [SetReleased(p, true)]
  }

  function RenewStores(p: nat, was: Handle, shadow: Handle, n: int): seq<Write> {
    [Free(was)] + EntryStores(p, shadow, n)
  }

  function InsertStores(m: Mem, p: nat, data: Address, shadow: Handle, n: int): seq<Write>
    requires p < |m.slots|
  {
    var ws := [SetKey(p, data)] + EntryStores(p, shadow, n);
    if m.slots[p].key == NULL then [SetOccupied(m.occupied + 1)] + ws else ws
  }

  // ---- program points ----

  /** Where a thread is. NEW carries the buffer it allocated before lock(). */
  datatype Pc =
    | Idle
    | Ready(op: Op, shadow: Handle)                     // in lock()
    | Entered(op: Op, shadow: Handle)                   // find: capacity and key tests
    | Probing(op: Op, shadow: Handle, i: nat)           // find: about to read slot i
    | Found(op: Op, shadow: Handle, p: nat)             // find returned slot p
    | Missing(op: Op, shadow: Handle)                   // find returned NULL
    | Counting(op: Op, shadow: Handle, i: nat, live: nat)             // reserve: counting live slots
    | Allocating(op: Op, shadow: Handle, live: nat, cap: nat)         // reserve: calloc
    | Moving(op: Op, shadow: Handle, live: nat, next: seq<Entry>, i: nat)           // reserve: about to read slot i
    | Placing(op: Op, shadow: Handle, live: nat, next: seq<Entry>, i: nat, j: nat)  // reserve: about to read next[j]
    | Publishing(op: Op, shadow: Handle, live: nat, next: seq<Entry>) // reserve: table = fresh
    | Capping(op: Op, shadow: Handle, live: nat, cap: nat)            // reserve: capacity = cap
    | Occupying(op: Op, shadow: Handle, live: nat)      // reserve: occupied = live
    | Homing(op: Op, shadow: Handle)                    // NEW: slot_of(data, capacity)
    | Inserting(op: Op, shadow: Handle, i: nat)         // NEW: about to read slot i
    | Storing(op: Op, pending: seq<Write>, answer: Answer, mine: set<Handle>)  // stores, then unlock()
    | Failing(op: Op, shadow: Handle)                   // reserve failed: unlock()
    | Stuck                                             // an access outside the table
    | Freeing(mine: set<Handle>)                        // DISPOSE: free after unlock()
    | Aborting(mine: set<Handle>)                       // heap_error

  predicate Inside(pc: Pc) {
    !pc.Idle? && !pc.Ready? && !pc.Freeing? && !pc.Aborting?
  }

  /** At unlock(). */
  predicate AtUnlock(pc: Pc) { pc.Failing? || (pc.Storing? && pc.pending == []) }

  /** The buffers in a thread's own hands. */
  function Hands(pc: Pc): set<Handle> {
    match pc
    case Idle => {}
    case Stuck => {}
    case Storing(_, _, _, mine) => mine
    case Freeing(mine) => mine
    case Aborting(mine) => mine
    case _ => if pc.op.New? then {pc.shadow} else {}
  }

  /** The doubling loop of reserve. */
  function Grow(live: nat, cap: nat): (c: nat)
    requires cap > 0
    ensures cap <= c && (live + 1) * 2 <= c
    decreases 2 * live + 2 - cap
  {
    if (live + 1) * 2 > cap then Grow(live, cap * 2) else cap
  }

  function Untracked(op: Op): Answer { if op.PartAt? then Looked(Fallback(Ones(op.count))) else Nothing }

  /** One step inside the lock; got says whether calloc gives reserve a table.
      The buffer of an entry passes between thread and table as the entry is
      read or its slot chosen. */
  ghost function Advance(pc: Pc, m: Mem, got: bool): (Pc, Mem) {
    match pc
    case Entered(op, sh) =>
      if m.capacity == 0 || op.data == NULL || op.data == TOMBSTONE then (Missing(op, sh), m)
      else if !PowerOfTwo(m.capacity) then (Stuck, m)
      else (Probing(op, sh, SlotOf(op.data, m.capacity)), m)
    case Probing(op, sh, i) =>
      if !Readable(m, i) then (Stuck, m)
      else if m.slots[i].key == op.data then (Found(op, sh, i), m)
      else if m.slots[i].key == NULL then (Missing(op, sh), m)
      else (Probing(op, sh, After(i, m.capacity)), m)
    case Found(op, sh, p) => if p < |m.slots| then AtEntry(op, sh, p, m) else (Stuck, m)
    case Missing(op, sh) =>
      if !op.New? then (Storing(op, [], Untracked(op), {}), m)
      else if (m.occupied + 1) * 4 <= m.capacity * 3 then (Homing(op, sh), m)
      else (Counting(op, sh, 0, 0), m)
    case Counting(op, sh, i, live) =>
      if i >= m.capacity then (Allocating(op, sh, live, Grow(live, if m.capacity != 0 then m.capacity else 64)), m)
      else if i >= |m.slots| then (Stuck, m)
      else (Counting(op, sh, i + 1, if Live(m.slots[i]) then live + 1 else live), m)
    case Allocating(op, sh, live, cap) =>
      if got then (Moving(op, sh, live, seq(cap, k => Vacant), 0), m) else (Failing(op, sh), m)
    case Moving(op, sh, live, next, i) =>
      if i >= m.capacity then (Publishing(op, sh, live, next), m)
      else if i >= |m.slots| || !PowerOfTwo(|next|) then (Stuck, m)
      else if !Live(m.slots[i]) then (Moving(op, sh, live, next, i + 1), m)
      else (Placing(op, sh, live, next, i, SlotOf(m.slots[i].key, |next|)), m)
    case Placing(op, sh, live, next, i, j) =>
      if i >= |m.slots| || j >= |next| || !PowerOfTwo(|next|) then (Stuck, m)
      else if next[j].key != NULL then (Placing(op, sh, live, next, i, After(j, |next|)), m)
      else (Moving(op, sh, live, next[j := m.slots[i]], i + 1), m)
    case Publishing(op, sh, live, next) => (Capping(op, sh, live, |next|), m.(slots := next))
    case Capping(op, sh, live, cap) => (Occupying(op, sh, live), m.(capacity := cap))
    case Occupying(op, sh, live) => (Homing(op, sh), m.(occupied := live))
    case Homing(op, sh) =>
      if !PowerOfTwo(m.capacity) then (Stuck, m) else (Inserting(op, sh, SlotOf(op.data, m.capacity)), m)
    case Inserting(op, sh, i) =>
      if !Readable(m, i) then (Stuck, m)
      else if Live(m.slots[i]) then (Inserting(op, sh, After(i, m.capacity)), m)
      else if !op.New? || op.n <= 0 then (Stuck, m)
      else (Storing(op, InsertStores(m, i, op.data, sh, op.n), Nothing, {}), m.(heap := m.heap[sh := Zeros(op.n)]))
    case Storing(op, ws, answer, mine) =>
      if ws == [] then (pc, m)
      else if !InBounds(ws[0], m) then (Stuck, m)
      else (Storing(op, ws[1..], answer, mine), Store(ws[0], m))
    case _ => (pc, m)
  }

  ghost predicate Readable(m: Mem, i: nat) { i < |m.slots| && i < m.capacity && PowerOfTwo(m.capacity) }

  /** What each entry point does with the entry find returned. */
  ghost function AtEntry(op: Op, sh: Handle, p: nat, m: Mem): (Pc, Mem)
    requires p < |m.slots|
  {
    var e := m.slots[p];
    match op
    case New(_, n) =>
      if n <= 0 then (Stuck, m)
      else (Storing(op, RenewStores(p, e.shadow, sh, n), Nothing, {}), m.(heap := m.heap[sh := Zeros(n)]))
    case Dispose(_) => (Storing(op, DisposeStores(p), Nothing, {e.shadow}), m.(heap := m.heap - {e.shadow}))
    case Release(_) => (Storing(op, ReleaseStores(p, e), Nothing, {}), m)
    case PartAt(data, n, offset, count) =>
      var inside := !e.released && e.n == n && offset >= 0 && count >= 0 && offset <= n - count;
      (Storing(op, [], if inside then Looked(Tracked(data, offset)) else Untracked(op), {}), m)
  }

  // ---- what holds at each point ----

  ghost predicate SlotHas(m: Mem, p: int, data: Address) {
    0 <= p < |m.slots| && Live(m.slots[p]) && m.slots[p].key == data
  }

  ghost predicate Roomy(m: Mem) { m.slots != [] && 4 * (m.occupied + 1) <= 3 * |m.slots| }

  /** The probe from data's home has come to slot i through used slots. */
  ghost predicate OnPath(slots: seq<Entry>, data: Address, i: int) {
    && slots != [] && Sized(slots) && 0 <= i < |slots|
    && Chained(slots, SlotOf(data, |slots|), Dist(SlotOf(data, |slots|), i, |slots|))
  }

  /** And data was in none of them. */
  ghost predicate NotSoFar(slots: seq<Entry>, data: Address, i: int) {
    && slots != [] && Sized(slots) && 0 <= i < |slots|
    && var h := SlotOf(data, |slots|);
    forall k :: 0 <= k < Dist(h, i, |slots|) ==> slots[Probe(h, k, |slots|)].key != data
  }

  /** NEW goes on with its own buffer, and data is not registered. */
  ghost predicate Adding(op: Op, sh: Handle, m: Mem, r: Registry) {
    Fresh(op, sh, m) && op.New? && op.data !in r
  }

  ghost predicate Fresh(op: Op, sh: Handle, m: Mem) {
    op.New? ==> sh !in m.heap && op.data != NULL && op.data != TOMBSTONE && op.n > 0
  }

  /** next holds the live entries of the first i slots, and nothing else. */
  ghost predicate Moved(m: Mem, live: nat, next: seq<Entry>, i: nat) {
    && i <= |m.slots| && live == LiveCount(m.slots) && (live + 1) * 2 <= |next|
    && Sized(next) && Reachable(next) && Unique(next)
    && Used(next) == LiveCount(m.slots[..i]) && LiveSet(next) == LiveSet(m.slots[..i])
    && forall q :: 0 <= q < |next| ==> next[q].key != TOMBSTONE
  }

  ghost predicate Ends(op: Op, ws: seq<Write>, answer: Answer, m: Mem, r: Registry) {
    Fits(ws, m) && Sound(StoreAll(ws, m), Effect(op, r)) && answer == AnswerOf(op, r)
  }

  /** Pending stores leave the entries and buffers of other addresses alone. */
  ghost predicate Careful(op: Op, ws: seq<Write>, m: Mem) {
    forall w :: w in ws ==> Spares(op, w, m)
  }

  ghost predicate Spares(op: Op, w: Write, m: Mem) {
    match w
    case SetKey(i, key) => Own(op, i, m) && (key == op.data || key == TOMBSTONE)
    case SetShadow(i, _) => Own(op, i, m)
    case Free(h) => op.New? && forall p :: 0 <= p < |m.slots| && Live(m.slots[p]) && m.slots[p].shadow == h ==> m.slots[p].key == op.data
    case _ => true
  }

  /** Slot i is free or holds the address op is about. */
  ghost predicate Own(op: Op, i: nat, m: Mem) {
    i < |m.slots| && (op.New? || op.Dispose?) && (Live(m.slots[i]) ==> m.slots[i].key == op.data)
  }

  /** The invariant of each point; r is the map when the lock was taken. */
  ghost predicate Stands(pc: Pc, m: Mem, r: Registry) {
    match pc
    case Entered(op, sh) => Sound(m, r) && Fresh(op, sh, m)
    case Probing(op, sh, i) =>
      Sound(m, r) && Fresh(op, sh, m) && Live(Entry(op.data, 0, 0, false)) && OnPath(m.slots, op.data, i) && NotSoFar(m.slots, op.data, i)
    case Found(op, sh, p) => Sound(m, r) && Fresh(op, sh, m) && SlotHas(m, p, op.data)
    case Missing(op, sh) => Sound(m, r) && Fresh(op, sh, m) && op.data !in r
    case Counting(op, sh, i, live) =>
      Sound(m, r) && Adding(op, sh, m, r) && i <= |m.slots| && live == LiveCount(m.slots[..i])
    case Allocating(op, sh, live, cap) =>
      Sound(m, r) && Adding(op, sh, m, r) && live == LiveCount(m.slots) && PowerOfTwo(cap) && (live + 1) * 2 <= cap
    case Moving(op, sh, live, next, i) => Sound(m, r) && Adding(op, sh, m, r) && Moved(m, live, next, i)
    case Placing(op, sh, live, next, i, j) =>
      Sound(m, r) && Adding(op, sh, m, r) && i < |m.slots| && Live(m.slots[i]) && Moved(m, live, next, i) && OnPath(next, m.slots[i].key, j)
    case Publishing(op, sh, live, next) =>
      var u := Mem(next, |next|, live, m.heap);
      Adding(op, sh, m, r) && Sound(u, r) && Roomy(u) && LiveSet(next) == LiveSet(m.slots)
    case Capping(op, sh, live, cap) =>
      var u := m.(capacity := cap, occupied := live); Adding(op, sh, m, r) && Sound(u, r) && Roomy(u)
    case Occupying(op, sh, live) =>
      var u := m.(occupied := live); Adding(op, sh, m, r) && Sound(u, r) && Roomy(u)
    case Homing(op, sh) => Sound(m, r) && Adding(op, sh, m, r) && Roomy(m)
    case Inserting(op, sh, i) => Sound(m, r) && Adding(op, sh, m, r) && Roomy(m) && OnPath(m.slots, op.data, i)
    case Storing(op, ws, answer, _) => Ends(op, ws, answer, m, r) && Careful(op, ws, m)
    case Failing(_, _) => Sound(m, r)
    case _ => false
  }

  // ---- stores ----

  lemma Next(w: Write, ws: seq<Write>, m: Mem)
    requires InBounds(w, m)
    ensures Fits([w] + ws, m) == Fits(ws, Store(w, m))
    ensures Fits(ws, Store(w, m)) ==> StoreAll([w] + ws, m) == StoreAll(ws, Store(w, m))
  {
    hide Store;
    assert ([w] + ws)[1..] == ws;
  }

  lemma NothingLeft(m: Mem)
    ensures Fits([], m) && StoreAll([], m) == m
  {
  }

  lemma EntryStored(p: nat, shadow: Handle, n: int, m: Mem)
    requires p < |m.slots|
    ensures var ws := EntryStores(p, shadow, n);
            Fits(ws, m) && StoreAll(ws, m) == m.(slots := m.slots[p := Entry(m.slots[p].key, shadow, n, false)])
  {
    hide Fits, StoreAll;
    var m1 := Store(SetShadow(p, shadow), m);
    var m2 := Store(SetCount(p, n), m1);
    var m3 := Store(SetReleased(p, false), m2);
    NothingLeft(m3);
    Next(SetReleased(p, false), [], m2);
    Next(SetCount(p, n), [SetReleased(p, false)] + [], m1);
    Next(SetShadow(p, shadow), [SetCount(p, n)] + ([SetReleased(p, false)] + []), m);
  }

  lemma KeyedStored(p: nat, key: Address, shadow: Handle, n: int, m: Mem)
    requires p < |m.slots|
    ensures var ws := [SetKey(p, key)] + EntryStores(p, shadow, n);
            Fits(ws, m) && StoreAll(ws, m) == m.(slots := m.slots[p := Entry(key, shadow, n, false)])
  {
    hide Fits, StoreAll, EntryStores;
    Next(SetKey(p, key), EntryStores(p, shadow, n), m);
    EntryStored(p, shadow, n, Store(SetKey(p, key), m));
  }

  /** The leaves from k on set, one by one. */
  lemma {:induction false} LeavesStored(h: Handle, k: nat, n: int, m: Mem, tail: seq<Write>)
    requires h in m.heap && |m.heap[h]| == n && k <= n
    requires Fits(tail, m.(heap := m.heap[h := m.heap[h][..k] + Ones(n - k)]))
    ensures Fits(LeafStores(h, k, n) + tail, m)
    ensures StoreAll(LeafStores(h, k, n) + tail, m) == StoreAll(tail, m.(heap := m.heap[h := m.heap[h][..k] + Ones(n - k)]))
    decreases n - k
  {
    hide Fits, StoreAll;
    var done := m.(heap := m.heap[h := m.heap[h][..k] + Ones(n - k)]);
    if k == n {
      assert m.heap[h][..k] + Ones(0) == m.heap[h];
      assert m.heap[h := m.heap[h]] == m.heap;
      assert LeafStores(h, k, n) + tail == tail;
    } else {
      var m1 := Store(SetLeaf(h, k), m);
      assert m1.heap[h][..k + 1] + Ones(n - k - 1) == m.heap[h][..k] + Ones(n - k);
      assert m1.heap[h := m1.heap[h][..k + 1] + Ones(n - k - 1)] == done.heap;
      LeavesStored(h, k + 1, n, m1, tail);
      Next(SetLeaf(h, k), LeafStores(h, k + 1, n) + tail, m);
      assert LeafStores(h, k, n) + tail == [SetLeaf(h, k)] + (LeafStores(h, k + 1, n) + tail);
    }
  }

  lemma OnesAll(n: int, leaves: seq<bool>)
    requires |leaves| == n
    ensures leaves[..0] + Ones(n - 0) == Ones(n)
  {
  }

  lemma RenewStored(p: nat, was: Handle, sh: Handle, n: int, m: Mem)
    requires p < |m.slots| && was in m.heap
    ensures var ws := RenewStores(p, was, sh, n);
            Fits(ws, m) && StoreAll(ws, m) == m.(slots := m.slots[p := Entry(m.slots[p].key, sh, n, false)], heap := m.heap - {was})
  {
    hide Fits, StoreAll, EntryStores;
    Next(Free(was), EntryStores(p, sh, n), m);
    EntryStored(p, sh, n, Store(Free(was), m));
  }

  lemma ReleaseStored(p: nat, m: Mem)
    requires p < |m.slots| && !m.slots[p].released && OwnsBuffer(m.heap, m.slots[p])
    ensures var e := m.slots[p];
            var ws := ReleaseStores(p, e);
            Fits(ws, m) && StoreAll(ws, m) == m.(slots := m.slots[p := e.(released := true)], heap := m.heap[e.shadow := Ones(e.n)])
  {
    hide Fits, StoreAll;
    var e := m.slots[p];
    var m1 := m.(heap := m.heap[e.shadow := Ones(e.n)]);
    var last := SetReleased(p, true);
    NothingLeft(Store(last, m1));
    Next(last, [], m1);
    assert [last] + [] == [last];
    OnesAll(e.n, m.heap[e.shadow]);
    LeavesStored(e.shadow, 0, e.n, m, [last]);
  }

  lemma InsertStored(p: nat, data: Address, sh: Handle, n: int, m: Mem, m1: Mem)
    requires p < |m.slots| && m1.slots == m.slots && m1.occupied == m.occupied
    ensures var ws := InsertStores(m, p, data, sh, n);
            Fits(ws, m1) && StoreAll(ws, m1) ==
            m1.(slots := m.slots[p := Entry(data, sh, n, false)], occupied := if m.slots[p].key == NULL then m.occupied + 1 else m.occupied)
  {
    hide Fits, StoreAll, EntryStores;
    if m.slots[p].key == NULL {
      Next(SetOccupied(m.occupied + 1), [SetKey(p, data)] + EntryStores(p, sh, n), m1);
      KeyedStored(p, data, sh, n, Store(SetOccupied(m.occupied + 1), m1));
    } else {
      KeyedStored(p, data, sh, n, m1);
    }
  }

  // ---- each entry point's stores end in its operation's map ----

  lemma FoundMeans(m: Mem, r: Registry, p: int, data: Address)
    requires Sound(m, r) && SlotHas(m, p, data)
    ensures OwnsBuffer(m.heap, m.slots[p]) && data in r && r[data] == RegOf(m.heap, m.slots[p])
  {
    hide Inv, Abs;
    FoundEntry(TableOf(m), p);
  }

  lemma DisposeEnds(op: Op, p: nat, m: Mem, r: Registry)
    requires Sound(m, r) && op.Dispose? && SlotHas(m, p, op.data)
    ensures Ends(op, DisposeStores(p), Nothing, m.(heap := m.heap - {m.slots[p].shadow}), r)
  {
    hide Inv, Abs, Disposed, Fits, StoreAll, EntryStores;
    var m1 := m.(heap := m.heap - {m.slots[p].shadow});
    KeyedStored(p, TOMBSTONE, 0, 0, m1);
    DisposeSlot(TableOf(m), p);
  }

  lemma ReleaseEnds(op: Op, p: nat, m: Mem, r: Registry)
    requires Sound(m, r) && op.Release? && SlotHas(m, p, op.data)
    ensures Ends(op, ReleaseStores(p, m.slots[p]), Nothing, m, r)
  {
    hide Inv, Abs, Released, Fits, StoreAll;
    var e := m.slots[p];
    FoundMeans(m, r, p, op.data);
    ReleaseSlot(TableOf(m), p);
    if e.released { NothingLeft(m); } else { ReleaseStored(p, m); }
  }

  lemma RenewEnds(op: Op, p: nat, sh: Handle, m: Mem, r: Registry)
    requires Sound(m, r) && op.New? && Fresh(op, sh, m) && SlotHas(m, p, op.data)
    ensures Ends(op, RenewStores(p, m.slots[p].shadow, sh, op.n), Nothing, m.(heap := m.heap[sh := Zeros(op.n)]), r)
  {
    hide Inv, Abs, Registered, Fits, StoreAll, RenewStores, Zeros;
    var was, m1 := m.slots[p].shadow, m.(heap := m.heap[sh := Zeros(op.n)]);
    FoundMeans(m, r, p, op.data);
    RenewStored(p, was, sh, op.n, m1);
    RenewSlot(TableOf(m), p, sh, op.n);
    assert m1.heap - {was} == (m.heap - {was})[sh := Zeros(op.n)];
  }

  lemma InsertEnds(op: Op, p: nat, sh: Handle, m: Mem, r: Registry)
    requires Sound(m, r) && Adding(op, sh, m, r) && Roomy(m) && OnPath(m.slots, op.data, p) && !Live(m.slots[p])
    ensures Ends(op, InsertStores(m, p, op.data, sh, op.n), Nothing, m.(heap := m.heap[sh := Zeros(op.n)]), r)
  {
    hide Inv, Abs, Registered, Fits, StoreAll, InsertStores, Chained, SlotOf, Zeros;
    var e, m1 := Entry(op.data, sh, op.n, false), m.(heap := m.heap[sh := Zeros(op.n)]);
    SearchMeans(TableOf(m), op.data);
    NewInsert(TableOf(m), e, Dist(SlotOf(op.data, |m.slots|), p, |m.slots|));
    InsertStored(p, op.data, sh, op.n, m, m1);
  }

  lemma LookEnds(op: Op, p: nat, m: Mem, r: Registry)
    requires Sound(m, r) && op.PartAt? && SlotHas(m, p, op.data)
    ensures var pc := AtEntry(op, 0, p, m).0; Ends(op, [], pc.answer, m, r)
  {
    hide Inv, Abs;
    FoundMeans(m, r, p, op.data);
  }

  // ---- one step keeps the invariant ----

  /** Buffers only pass between the thread and the table. */
  ghost predicate Passes(pc: Pc, m: Mem, pc': Pc, m': Mem) {
    && (forall h :: h in Hands(pc') ==> h !in m'.heap)
    && Hands(pc') <= Hands(pc) + m.heap.Keys
    && m'.heap.Keys <= m.heap.Keys + Hands(pc)
  }

  ghost predicate Keeps(pc: Pc, m: Mem, got: bool, r: Registry) {
    var (pc', m') := Advance(pc, m, got);
    Stands(pc', m', r) && Inside(pc') && Passes(pc, m, pc', m')
  }

  lemma PathStep(slots: seq<Entry>, data: Address, i: nat)
    requires OnPath(slots, data, i) && Used(slots) < |slots| && slots[i].key != NULL
    ensures OnPath(slots, data, After(i, |slots|))
    ensures NotSoFar(slots, data, i) && slots[i].key != data ==> NotSoFar(slots, data, After(i, |slots|))
    ensures Dist(SlotOf(data, |slots|), After(i, |slots|), |slots|) == Dist(SlotOf(data, |slots|), i, |slots|) + 1
  {
    hide SlotOf, Used;
    var h := SlotOf(data, |slots|);
    ChainGrows(slots, h, Dist(h, i, |slots|));
  }

  /** One more used slot on a path of a table that is not full. */
  lemma ChainGrows(t: seq<Entry>, h: int, d: int)
    requires 0 <= h < |t| && 0 <= d < |t| && Used(t) < |t|
    requires Chained(t, h, d) && t[Probe(h, d, |t|)].key != NULL
    ensures d + 1 < |t| && Chained(t, h, d + 1)
  {
    assert Chained(t, h, d + 1);
    if d + 1 == |t| { PathEnds(t, h); }
  }

  lemma PathStart(slots: seq<Entry>, data: Address)
    requires slots != [] && Sized(slots)
    ensures OnPath(slots, data, SlotOf(data, |slots|)) && NotSoFar(slots, data, SlotOf(data, |slots|))
  {
  }

  lemma EnterKeeps(pc: Pc, m: Mem, got: bool, r: Registry)
    requires pc.Entered? && Stands(pc, m, r)
    ensures Keeps(pc, m, got, r)
  {
    hide Inv, Abs, SlotOf, OnPath, NotSoFar;
    ReservedKeys(TableOf(m));
    if m.capacity == 0 {
      EmptyTable(TableOf(m), pc.op.data);
    } else if pc.op.data != NULL && pc.op.data != TOMBSTONE {
      InvSlots(TableOf(m));
      PathStart(m.slots, pc.op.data);
    }
  }

  lemma EmptyTable(t: Table, data: Address)
    requires Inv(t) && t.slots == []
    ensures data !in Abs(t)
  {
  }

  lemma ProbeKeeps(pc: Pc, m: Mem, got: bool, r: Registry)
    requires pc.Probing? && Stands(pc, m, r)
    ensures Keeps(pc, m, got, r)
  {
    hide Inv, Abs, SlotOf, Reachable, Unique, Used;
    InvSlots(TableOf(m));
    var data, i := pc.op.data, pc.i;
    if m.slots[i].key == NULL {
      SearchOver(m.slots, data, Dist(SlotOf(data, |m.slots|), i, |m.slots|));
      SearchMeans(TableOf(m), data);
    } else if m.slots[i].key != data {
      hide OnPath, NotSoFar;
      PathStep(m.slots, data, i);
    }
  }

  lemma RenewCareful(op: Op, p: nat, sh: Handle, m: Mem, r: Registry)
    requires Sound(m, r) && SlotHas(m, p, op.data) && op.New? && op.n > 0
    ensures Careful(op, RenewStores(p, m.slots[p].shadow, sh, op.n), m.(heap := m.heap[sh := Zeros(op.n)]))
  {
    hide Inv, Abs, Zeros, EntryStores, Careful;
    var m1 := m.(heap := m.heap[sh := Zeros(op.n)]);
    SoleOwner(m, p);
    EntryCareful(op, p, sh, op.n, m1);
    ConsCareful(op, Free(m.slots[p].shadow), EntryStores(p, sh, op.n), m1);
  }

  lemma EntryCareful(op: Op, p: nat, sh: Handle, n: int, m: Mem)
    requires Own(op, p, m)
    ensures Careful(op, EntryStores(p, sh, n), m)
  {
  }

  lemma ConsCareful(op: Op, w: Write, ws: seq<Write>, m: Mem)
    requires Spares(op, w, m) && Careful(op, ws, m)
    ensures Careful(op, [w] + ws, m)
  {
  }

  /** No other entry shares a buffer. */
  lemma SoleOwner(m: Mem, p: nat)
    requires Inv(TableOf(m)) && p < |m.slots| && Live(m.slots[p])
    ensures forall q :: 0 <= q < |m.slots| && Live(m.slots[q]) && m.slots[q].shadow == m.slots[p].shadow ==> m.slots[q].key == m.slots[p].key
  {
    forall q | 0 <= q < |m.slots| && Live(m.slots[q]) && m.slots[q].shadow == m.slots[p].shadow
      ensures m.slots[q].key == m.slots[p].key
    {
      assert m.slots[q] in LiveSet(m.slots) && m.slots[p] in LiveSet(m.slots);
    }
  }

  lemma DisposeCareful(op: Op, p: nat, m: Mem)
    requires SlotHas(m, p, op.data) && op.Dispose?
    ensures Careful(op, DisposeStores(p), m.(heap := m.heap - {m.slots[p].shadow}))
  {
  }

  lemma ReleaseCareful(op: Op, p: nat, m: Mem)
    requires p < |m.slots|
    ensures Careful(op, ReleaseStores(p, m.slots[p]), m)
  {
    LeavesCareful(op, m.slots[p].shadow, 0, m.slots[p].n, m);
  }

  lemma {:induction false} LeavesCareful(op: Op, h: Handle, k: nat, n: int, m: Mem)
    ensures Careful(op, LeafStores(h, k, n), m)
    decreases n - k
  {
    if k < n { LeavesCareful(op, h, k + 1, n, m); }
  }

  lemma InsertCareful(op: Op, p: nat, sh: Handle, m: Mem)
    requires op.New? && p < |m.slots| && !Live(m.slots[p])
    ensures forall heap :: Careful(op, InsertStores(m, p, op.data, sh, op.n), m.(heap := heap))
  {
  }

  lemma FoundKeeps(pc: Pc, m: Mem, got: bool, r: Registry)
    requires pc.Found? && Stands(pc, m, r)
    ensures Keeps(pc, m, got, r)
  {
    hide Sound, Ends, Careful, SlotHas, RenewStores, DisposeStores, ReleaseStores;
    SlotThere(m, pc.p, pc.op.data);
    NoneCareless(pc.op, m);
    match pc.op
    case New(_, _) =>
      RenewEnds(pc.op, pc.p, pc.shadow, m, r);
      RenewCareful(pc.op, pc.p, pc.shadow, m, r);
    case Dispose(data) =>
      DisposeCareful(pc.op, pc.p, m);
      DisposeEnds(pc.op, pc.p, m, r);
      FoundMeans(m, r, pc.p, data);
    case Release(_) =>
      ReleaseEnds(pc.op, pc.p, m, r);
      ReleaseCareful(pc.op, pc.p, m);
    case PartAt(_, _, _, _) => LookEnds(pc.op, pc.p, m, r);
  }

  lemma NoneCareless(op: Op, m: Mem)
    ensures Careful(op, [], m)
  {
  }

  lemma SlotThere(m: Mem, p: int, data: Address)
    requires SlotHas(m, p, data)
    ensures 0 <= p < |m.slots|
  {
  }

  lemma MissKeeps(pc: Pc, m: Mem, got: bool, r: Registry)
    requires pc.Missing? && Stands(pc, m, r)
    ensures Keeps(pc, m, got, r)
  {
    hide Inv, Abs;
    NothingLeft(m);
    assert m.slots[..0] == [];
  }

  lemma CountKeeps(pc: Pc, m: Mem, got: bool, r: Registry)
    requires pc.Counting? && Stands(pc, m, r)
    ensures Keeps(pc, m, got, r)
  {
    hide Inv, Abs, LiveCount, Grow;
    if pc.i < |m.slots| {
      LiveSetSnoc(m.slots, pc.i);
    } else {
      assert m.slots[..pc.i] == m.slots;
      if m.slots == [] { SixtyFour(); } else { InvSlots(TableOf(m)); }
      GrowPower(pc.live, if m.capacity != 0 then m.capacity else 64);
    }
  }

  lemma {:induction false} GrowPower(live: nat, cap: nat)
    requires cap > 0 && PowerOfTwo(cap)
    ensures PowerOfTwo(Grow(live, cap))
    decreases 2 * live + 2 - cap
  {
    if (live + 1) * 2 > cap {
      Doubled(cap);
      GrowPower(live, cap * 2);
    }
  }

  lemma AllocateKeeps(pc: Pc, m: Mem, got: bool, r: Registry)
    requires pc.Allocating? && Stands(pc, m, r)
    ensures Keeps(pc, m, got, r)
  {
    hide Inv, Abs, LiveCount, LiveSet, Used, Unique, Reachable;
    var next := seq(pc.cap, k => Vacant);
    VacantSlots(next);
    EmptyPrefix(m.slots);
  }

  lemma EmptyPrefix(t: seq<Entry>)
    ensures LiveCount(t[..0]) == 0 && LiveSet(t[..0]) == {}
  {
  }

  lemma MoveKeeps(pc: Pc, m: Mem, got: bool, r: Registry)
    requires pc.Moving? && Stands(pc, m, r)
    ensures Keeps(pc, m, got, r)
  {
    hide Inv, Abs, LiveCount, LiveSet, Used, Unique, Reachable, SlotOf;
    if pc.i < |m.slots| {
      LiveSetSnoc(m.slots, pc.i);
      PathStart(pc.next, m.slots[pc.i].key);
    } else {
      assert m.slots[..pc.i] == m.slots;
      SameLive(TableOf(m), Table(pc.next, pc.live, m.heap));
    }
  }

  lemma PlaceKeeps(pc: Pc, m: Mem, got: bool, r: Registry)
    requires pc.Placing? && Stands(pc, m, r)
    ensures Keeps(pc, m, got, r)
  {
    hide Inv, Abs, Moved, OnPath;
    PathThere(pc.next, m.slots[pc.i].key, pc.j);
    if pc.next[pc.j].key != NULL {
      StillRoom(m, pc.live, pc.next, pc.i);
      PathStep(pc.next, m.slots[pc.i].key, pc.j);
    } else {
      PlaceMoves(m, r, pc.live, pc.next, pc.i, pc.j);
    }
  }

  lemma PlaceMoves(m: Mem, r: Registry, live: nat, next: seq<Entry>, i: nat, j: nat)
    requires Sound(m, r) && i < |m.slots| && Live(m.slots[i]) && Moved(m, live, next, i)
    requires OnPath(next, m.slots[i].key, j) && next[j].key == NULL
    ensures Moved(m, live, next[j := m.slots[i]], i + 1)
  {
    hide Inv, Abs, LiveCount, LiveSet, Used, Unique, Reachable, SlotOf, Chained;
    var e := m.slots[i];
    LiveSetSnoc(m.slots, i);
    InvSlots(TableOf(m));
    NotYetMoved(m.slots, i, next);
    InsertKeeps(next, e, Dist(SlotOf(e.key, |next|), j, |next|));
    UsedUpdate(next, j, e);
  }

  lemma StillRoom(m: Mem, live: nat, next: seq<Entry>, i: nat)
    requires Moved(m, live, next, i)
    ensures Used(next) < |next|
  {
    LiveCountPrefix(m.slots, i);
  }

  lemma PublishKeeps(pc: Pc, m: Mem, got: bool, r: Registry)
    requires (pc.Publishing? || pc.Capping? || pc.Occupying?) && Stands(pc, m, r)
    ensures Keeps(pc, m, got, r)
  {
    hide Inv, Abs;
  }

  lemma HomeKeeps(pc: Pc, m: Mem, got: bool, r: Registry)
    requires pc.Homing? && Stands(pc, m, r)
    ensures Keeps(pc, m, got, r)
  {
    hide Inv, Abs, SlotOf, OnPath;
    InvSlots(TableOf(m));
    PathStart(m.slots, pc.op.data);
  }

  lemma InsertStepKeeps(pc: Pc, m: Mem, got: bool, r: Registry)
    requires pc.Inserting? && Stands(pc, m, r)
    ensures Keeps(pc, m, got, r)
  {
    hide Inv, Abs, SlotOf, Ends, Careful, InsertStores, Used, Reachable, Unique;
    InvSlots(TableOf(m));
    if Live(m.slots[pc.i]) {
      hide OnPath;
      PathStep(m.slots, pc.op.data, pc.i);
    } else {
      InsertEnds(pc.op, pc.i, pc.shadow, m, r);
      InsertCareful(pc.op, pc.i, pc.shadow, m);
    }
  }

  lemma StoreKeeps(pc: Pc, m: Mem, got: bool, r: Registry)
    requires pc.Storing? && Stands(pc, m, r) && forall h :: h in Hands(pc) ==> h !in m.heap
    ensures Keeps(pc, m, got, r)
  {
    hide Sound, Careful;
    if pc.pending != [] { StillCareful(pc.op, pc.pending, m); }
  }

  lemma StillCareful(op: Op, ws: seq<Write>, m: Mem)
    requires ws != [] && Careful(op, ws, m) && InBounds(ws[0], m)
    ensures Careful(op, ws[1..], Store(ws[0], m))
  {
    forall w | w in ws[1..]
      ensures Spares(op, w, Store(ws[0], m))
    {
      assert w in ws && ws[0] in ws;
    }
  }

  /** Every step inside the lock keeps the invariant of its program point; no
      access leaves the table, and buffers are neither lost nor shared. */
  lemma AdvanceKeeps(pc: Pc, m: Mem, got: bool, r: Registry)
    requires Stands(pc, m, r) && !pc.Failing? && forall h :: h in Hands(pc) ==> h !in m.heap
    ensures Keeps(pc, m, got, r)
  {
    hide Keeps, Sound, Ends, Hands;
    match pc
    case Entered(_, _) => EnterKeeps(pc, m, got, r);
    case Probing(_, _, _) => ProbeKeeps(pc, m, got, r);
    case Found(_, _, _) => FoundKeeps(pc, m, got, r);
    case Missing(_, _) => MissKeeps(pc, m, got, r);
    case Counting(_, _, _, _) => CountKeeps(pc, m, got, r);
    case Allocating(_, _, _, _) => AllocateKeeps(pc, m, got, r);
    case Moving(_, _, _, _, _) => MoveKeeps(pc, m, got, r);
    case Placing(_, _, _, _, _, _) => PlaceKeeps(pc, m, got, r);
    case Homing(_, _) => HomeKeeps(pc, m, got, r);
    case Inserting(_, _, _) => InsertStepKeeps(pc, m, got, r);
    case Storing(_, _, _, _) => StoreKeeps(pc, m, got, r);
    case Publishing(_, _, _, _) => PublishKeeps(pc, m, got, r);
    case Capping(_, _, _, _) => PublishKeeps(pc, m, got, r);
    case Occupying(_, _, _) => PublishKeeps(pc, m, got, r);
  }

  // ---- a section ends ----

  ghost function Stage(pc: Pc): nat {
    match pc
    case Entered(_, _) => 12
    case Probing(_, _, _) => 11
    case Found(_, _, _) => 10
    case Missing(_, _) => 10
    case Counting(_, _, _, _) => 9
    case Allocating(_, _, _, _) => 8
    case Moving(_, _, _, _, _) => 7
    case Placing(_, _, _, _, _, _) => 7
    case Publishing(_, _, _, _) => 6
    case Capping(_, _, _, _) => 5
    case Occupying(_, _, _) => 4
    case Homing(_, _) => 3
    case Inserting(_, _, _) => 2
    case Storing(_, _, _, _) => 1
    case _ => 0
  }

  /** Slots, or stores, still to come in a loop. */
  ghost function Turns(pc: Pc, m: Mem): nat {
    match pc
    case Counting(_, _, i, _) => if i <= m.capacity then m.capacity - i else 0
    case Moving(_, _, _, _, i) => if i <= m.capacity then m.capacity - i else 0
    case Placing(_, _, _, _, i, _) => if i <= m.capacity then m.capacity - i else 0
    case Storing(_, ws, _, _) => |ws|
    case _ => 0
  }

  /** Slots still to come on a probe path. */
  ghost function ToProbe(pc: Pc, m: Mem): nat {
    match pc
    case Probing(op, _, i) => PathLeft(m.slots, op.data, i)
    case Inserting(op, _, i) => PathLeft(m.slots, op.data, i)
    case Moving(_, _, _, next, _) => |next| + 1
    case Placing(_, _, _, next, i, j) => if i < |m.slots| then PathLeft(next, m.slots[i].key, j) else 0
    case _ => 0
  }

  ghost function PathLeft(slots: seq<Entry>, data: Address, i: int): (n: nat)
    ensures n <= |slots|
  {
    if OnPath(slots, data, i) then |slots| - Dist(SlotOf(data, |slots|), i, |slots|) else 0
  }

  /** A step inside the lock comes closer to unlock(). */
  ghost predicate Closer(pc: Pc, m: Mem, pc': Pc, m': Mem) {
    || Stage(pc') < Stage(pc)
    || (Stage(pc') == Stage(pc) && Turns(pc', m') < Turns(pc, m))
    || (Stage(pc') == Stage(pc) && Turns(pc', m') == Turns(pc, m) && ToProbe(pc', m') < ToProbe(pc, m))
  }

  lemma PathShrinks(slots: seq<Entry>, data: Address, i: nat)
    requires OnPath(slots, data, i) && Used(slots) < |slots| && slots[i].key != NULL
    ensures PathLeft(slots, data, After(i, |slots|)) < PathLeft(slots, data, i)
  {
    hide OnPath, Used, SlotOf;
    PathStep(slots, data, i);
  }

  lemma ProbingCloser(pc: Pc, m: Mem, got: bool, r: Registry)
    requires (pc.Probing? || pc.Inserting?) && Stands(pc, m, r)
    ensures var (pc', m') := Advance(pc, m, got); Closer(pc, m, pc', m')
  {
    hide Inv, Abs, SlotOf, OnPath, NotSoFar, Used, Reachable, Unique, Dist, PathLeft;
    PathThere(m.slots, pc.op.data, pc.i);
    InvSlots(TableOf(m));
    ProbeCloser(m.slots, pc.op.data, pc.i);
  }

  lemma PlacingCloser(pc: Pc, m: Mem, got: bool, r: Registry)
    requires pc.Placing? && Stands(pc, m, r)
    ensures var (pc', m') := Advance(pc, m, got); Closer(pc, m, pc', m')
  {
    hide Inv, Abs, SlotOf, OnPath, Used, Reachable, Unique, LiveSet, LiveCount, Dist, PathLeft;
    StillRoom(m, pc.live, pc.next, pc.i);
    PathThere(pc.next, m.slots[pc.i].key, pc.j);
    ProbeCloser(pc.next, m.slots[pc.i].key, pc.j);
  }

  lemma AdvanceCloser(pc: Pc, m: Mem, got: bool, r: Registry)
    requires Stands(pc, m, r) && !AtUnlock(pc)
    ensures var (pc', m') := Advance(pc, m, got); Closer(pc, m, pc', m')
  {
    if pc.Probing? || pc.Inserting? {
      ProbingCloser(pc, m, got, r);
    } else if pc.Placing? {
      PlacingCloser(pc, m, got, r);
    } else {
      PlainCloser(pc, m, got, r);
    }
  }

  lemma PlainCloser(pc: Pc, m: Mem, got: bool, r: Registry)
    requires Stands(pc, m, r) && !AtUnlock(pc) && !pc.Probing? && !pc.Inserting? && !pc.Placing?
    ensures var (pc', m') := Advance(pc, m, got); Closer(pc, m, pc', m')
  {
    hide Inv, Abs, SlotOf, OnPath, Ends, Used, Reachable, Unique, LiveSet, LiveCount, Dist, RenewStores, DisposeStores, ReleaseStores, Grow;
    if pc.Storing? { StoresThere(pc, m, r); }
    if pc.Moving? && pc.i < |m.slots| { PathStart(pc.next, m.slots[pc.i].key); }
  }

  lemma PathThere(slots: seq<Entry>, data: Address, i: int)
    requires OnPath(slots, data, i)
    ensures 0 <= i < |slots| && Sized(slots)
  {
  }

  lemma ProbeCloser(slots: seq<Entry>, data: Address, i: nat)
    requires OnPath(slots, data, i) && Used(slots) < |slots| && i < |slots| && Sized(slots)
    ensures slots[i].key != NULL ==> PathLeft(slots, data, After(i, |slots|)) < PathLeft(slots, data, i)
  {
    hide OnPath, Used, PathLeft;
    if slots[i].key != NULL { PathShrinks(slots, data, i); }
  }

  lemma StoresThere(pc: Pc, m: Mem, r: Registry)
    requires pc.Storing? && Stands(pc, m, r)
    ensures pc.pending != [] ==> InBounds(pc.pending[0], m)
  {
  }

  /** n steps of one thread with no other in between. */
  ghost function Steps(n: nat, got: bool, pc: Pc, m: Mem): (Pc, Mem) {
    if n == 0 then (pc, m) else var (pc1, m1) := Advance(pc, m, got); Steps(n - 1, got, pc1, m1)
  }

  ghost predicate Reaches(got: bool, pc: Pc, m: Mem, pc': Pc, m': Mem) {
    exists n: nat :: Steps(n, got, pc, m) == (pc', m')
  }

  lemma {:induction false} StepsAdd(k: nat, n: nat, got: bool, pc: Pc, m: Mem)
    ensures var (pc1, m1) := Steps(k, got, pc, m); Steps(k + n, got, pc, m) == Steps(n, got, pc1, m1)
  {
    hide Advance;
    if k > 0 {
      var (pc1, m1) := Advance(pc, m, got);
      StepsAdd(k - 1, n, got, pc1, m1);
    }
  }

  lemma Onward(got: bool, pc: Pc, m: Mem, pc1: Pc, m1: Mem, pc2: Pc, m2: Mem)
    requires Reaches(got, pc, m, pc1, m1) && Reaches(got, pc1, m1, pc2, m2)
    ensures Reaches(got, pc, m, pc2, m2)
  {
    hide Steps;
    var k: nat :| Steps(k, got, pc, m) == (pc1, m1);
    var n: nat :| Steps(n, got, pc1, m1) == (pc2, m2);
    StepsAdd(k, n, got, pc, m);
    assert Steps(k + n, got, pc, m) == (pc2, m2);
  }

  lemma OneStep(got: bool, pc: Pc, m: Mem)
    ensures var (pc1, m1) := Advance(pc, m, got); Reaches(got, pc, m, pc1, m1)
    ensures Reaches(got, pc, m, pc, m)
  {
    hide Advance;
    var (pc1, m1) := Advance(pc, m, got);
    assert Steps(0, got, pc, m) == (pc, m);
    assert Steps(0, got, pc1, m1) == (pc1, m1);
    assert Steps(1, got, pc, m) == (pc1, m1);
  }

  lemma Take(got: bool, pc: Pc, m: Mem, pc1: Pc, m1: Mem)
    requires Reaches(got, pc, m, pc1, m1)
    ensures var (pc2, m2) := Advance(pc1, m1, got); Reaches(got, pc, m, pc2, m2)
  {
    hide Advance, Reaches;
    var (pc2, m2) := Advance(pc1, m1, got);
    OneStep(got, pc1, m1);
    Onward(got, pc, m, pc1, m1, pc2, m2);
  }

  /** Pending stores are made one by one. */
  lemma {:induction false} StoresRun(got: bool, op: Op, ws: seq<Write>, answer: Answer, mine: set<Handle>, m: Mem)
    requires Fits(ws, m)
    ensures Reaches(got, Storing(op, ws, answer, mine), m, Storing(op, [], answer, mine), StoreAll(ws, m))
  {
    hide Reaches, Store;
    OneStep(got, Storing(op, ws, answer, mine), m);
    if ws != [] {
      var m1 := Store(ws[0], m);
      StoresRun(got, op, ws[1..], answer, mine, m1);
      Onward(got, Storing(op, ws, answer, mine), m, Storing(op, ws[1..], answer, mine), m1, Storing(op, [], answer, mine), StoreAll(ws, m));
    }
  }

  lemma ProbeAfter(h: int, d: nat, cap: nat)
    requires PowerOfTwo(cap) && 0 <= h < cap && d + 1 < cap
    ensures After(Probe(h, d, cap), cap) == Probe(h, d + 1, cap)
  {
  }

  /** The insertion probe passes live slots. */
  lemma {:induction false} InsertProbes(got: bool, op: Op, sh: Handle, m: Mem, d: nat)
    requires m.capacity == |m.slots| && Sized(m.slots) && d < |m.slots|
    requires var h := SlotOf(op.data, |m.slots|); forall k :: 0 <= k < d ==> Live(m.slots[Probe(h, k, |m.slots|)])
    ensures var h := SlotOf(op.data, |m.slots|);
            Reaches(got, Inserting(op, sh, h), m, Inserting(op, sh, Probe(h, d, |m.slots|)), m)
  {
    hide Reaches, SlotOf, After;
    var h := SlotOf(op.data, |m.slots|);
    OneStep(got, Inserting(op, sh, h), m);
    if d > 0 {
      InsertProbes(got, op, sh, m, d - 1);
      ProbeAfter(h, d - 1, |m.slots|);
      Take(got, Inserting(op, sh, h), m, Inserting(op, sh, Probe(h, d - 1, |m.slots|)), m);
    }
  }

  /** The probe of the move passes used slots. */
  lemma {:induction false} PlaceProbes(got: bool, op: Op, sh: Handle, live: nat, next: seq<Entry>, i: nat, m: Mem, d: nat)
    requires i < |m.slots| && Sized(next) && d < |next|
    requires var h := SlotOf(m.slots[i].key, |next|); forall k :: 0 <= k < d ==> next[Probe(h, k, |next|)].key != NULL
    ensures var h := SlotOf(m.slots[i].key, |next|);
            Reaches(got, Placing(op, sh, live, next, i, h), m, Placing(op, sh, live, next, i, Probe(h, d, |next|)), m)
  {
    hide Reaches, SlotOf, After;
    var h := SlotOf(m.slots[i].key, |next|);
    OneStep(got, Placing(op, sh, live, next, i, h), m);
    if d > 0 {
      PlaceProbes(got, op, sh, live, next, i, m, d - 1);
      ProbeAfter(h, d - 1, |next|);
      Take(got, Placing(op, sh, live, next, i, h), m, Placing(op, sh, live, next, i, Probe(h, d - 1, |next|)), m);
    }
  }

  /** From any point inside the lock the thread comes to unlock() in finitely
      many steps of its own, with the invariant of that point. */
  lemma {:induction false} SectionEnds(got: bool, pc: Pc, m: Mem, r: Registry) returns (pc': Pc, m': Mem)
    requires Stands(pc, m, r) && forall h :: h in Hands(pc) ==> h !in m.heap
    ensures Reaches(got, pc, m, pc', m') && AtUnlock(pc') && Stands(pc', m', r)
    decreases Stage(pc), Turns(pc, m), ToProbe(pc, m)
  {
    hide Advance, Stands, Reaches, Stage, Turns, ToProbe;
    OneStep(got, pc, m);
    if AtUnlock(pc) {
      pc', m' := pc, m;
    } else {
      AdvanceKeeps(pc, m, got, r);
      AdvanceCloser(pc, m, got, r);
      var (pc1, m1) := Advance(pc, m, got);
      pc', m' := SectionEnds(got, pc1, m1, r);
      Onward(got, pc, m, pc1, m1, pc', m');
    }
  }

  // ---- leaves set by compiled code ----

  /** Compiled code sets leaf k of the buffer that a lookup of data gave it. */
  ghost predicate Settable(m: Mem, p: int, data: Address, k: nat) {
    SlotHas(m, p, data) && InBounds(SetLeaf(m.slots[p].shadow, k), m)
  }

  ghost function Touched(m: Mem, h: Handle, k: nat): Mem
    requires InBounds(SetLeaf(h, k), m)
  {
    Store(SetLeaf(h, k), m)
  }

  /** The map after leaf k of data has been set. */
  ghost function WithLeaf(r: Registry, data: Address, k: nat): Registry {
    if data in r && k < |r[data].leaves| then r[data := r[data].(leaves := r[data].leaves[k := true])] else r
  }

  /** The program does not set leaves of an address it is disposing of or
      allocating anew. */
  predicate Undisturbed(op: Op, data: Address) { op.New? || op.Dispose? ==> op.data != data }

  lemma SoundTouch(m: Mem, r: Registry, p: int, data: Address, k: nat)
    requires Sound(m, r) && Settable(m, p, data, k)
    ensures Sound(Touched(m, m.slots[p].shadow, k), WithLeaf(r, data, k))
  {
    hide Inv, Abs;
    SetSlotLeaf(TableOf(m), p, k);
  }

  /** Setting a leaf commutes with every pending store but the free of its
      buffer, the leaf stores of RELEASE included. */
  lemma {:induction false} StoresTouch(ws: seq<Write>, m: Mem, h: Handle, k: nat)
    requires Fits(ws, m) && InBounds(SetLeaf(h, k), m) && Free(h) !in ws
    ensures InBounds(SetLeaf(h, k), StoreAll(ws, m)) && Fits(ws, Touched(m, h, k))
    ensures StoreAll(ws, Touched(m, h, k)) == Touched(StoreAll(ws, m), h, k)
  {
    if ws != [] {
      hide Fits, StoreAll;
      StoreTouch(ws[0], m, h, k);
      Unfold(ws, m);
      Unfold(ws, Touched(m, h, k));
      StoresTouch(ws[1..], Store(ws[0], m), h, k);
    }
  }

  lemma Unfold(ws: seq<Write>, m: Mem)
    requires ws != []
    ensures Fits(ws, m) <==> InBounds(ws[0], m) && Fits(ws[1..], Store(ws[0], m))
    ensures Fits(ws, m) ==> StoreAll(ws, m) == StoreAll(ws[1..], Store(ws[0], m))
  {
  }

  lemma StoreTouch(w: Write, m: Mem, h: Handle, k: nat)
    requires InBounds(w, m) && InBounds(SetLeaf(h, k), m) && w != Free(h)
    ensures InBounds(w, Touched(m, h, k)) && InBounds(SetLeaf(h, k), Store(w, m))
    ensures Store(w, Touched(m, h, k)) == Touched(Store(w, m), h, k)
  {
    if w.SetLeaf? && w.shadow == h {
      assert m.heap[h][w.k := true][k := true] == m.heap[h][k := true][w.k := true];
      assert m.heap[h := m.heap[h][k := true]][h := m.heap[h][k := true][w.k := true]] ==
             m.heap[h := m.heap[h][w.k := true]][h := m.heap[h][w.k := true][k := true]];
    } else if w.SetLeaf? {
      assert m.heap[h := m.heap[h][k := true]][w.shadow := m.heap[w.shadow][w.k := true]] ==
             m.heap[w.shadow := m.heap[w.shadow][w.k := true]][h := m.heap[h][k := true]];
    } else if w.Free? {
      assert m.heap[h := m.heap[h][k := true]] - {w.shadow} == (m.heap - {w.shadow})[h := m.heap[h][k := true]];
    }
  }

  /** Careful stores leave the entry of another address in its slot. */
  lemma {:induction false} SlotKept(op: Op, ws: seq<Write>, m: Mem, p: int, data: Address)
    requires Fits(ws, m) && Careful(op, ws, m) && SlotHas(m, p, data) && Undisturbed(op, data)
    ensures SlotHas(StoreAll(ws, m), p, data) && StoreAll(ws, m).slots[p].shadow == m.slots[p].shadow
  {
    if ws != [] {
      StillCareful(op, ws, m);
      assert Spares(op, ws[0], m);
      SlotKept(op, ws[1..], Store(ws[0], m), p, data);
    }
  }

  lemma NotFreed(op: Op, ws: seq<Write>, m: Mem, p: int, data: Address)
    requires Careful(op, ws, m) && SlotHas(m, p, data) && Undisturbed(op, data)
    ensures Free(m.slots[p].shadow) !in ws
  {
    assert Free(m.slots[p].shadow) in ws ==> Spares(op, Free(m.slots[p].shadow), m);
  }

  /** The leaf goes into the map before or after the operation alike. */
  lemma EffectTouch(op: Op, r: Registry, data: Address, k: nat)
    requires Undisturbed(op, data)
    ensures AnswerOf(op, WithLeaf(r, data, k)) == AnswerOf(op, r)
    ensures data in Effect(op, r) && k < |Effect(op, r)[data].leaves| && (data in r ==> |r[data].leaves| == r[data].n) ==>
              Effect(op, WithLeaf(r, data, k)) == WithLeaf(Effect(op, r), data, k)
  {
    if op.Release? && op.data == data && data in r && 0 <= k < r[data].n {
      assert Ones(r[data].n)[k := true] == Ones(r[data].n);
    }
  }

  /** Whoever is inside the lock stands where it stood. */
  lemma StandsTouch(pc: Pc, m: Mem, r: Registry, p: int, data: Address, k: nat)
    requires Stands(pc, m, r) && Inside(pc) && !pc.Stuck? && Settable(m, p, data, k) && Undisturbed(pc.op, data) && Counted(r)
    ensures Stands(pc, Touched(m, m.slots[p].shadow, k), WithLeaf(r, data, k))
  {
    hide Stands, Settable, Touched, WithLeaf;
    if pc.Storing? {
      StoringTouch(pc, m, r, p, data, k);
    } else if pc.Publishing? {
      PublishingTouch(pc, m, r, p, data, k);
    } else if pc.Capping? || pc.Occupying? {
      PublishedTouch(pc, m, r, p, data, k);
    } else if pc.Counting? || pc.Allocating? || pc.Moving? || pc.Placing? {
      ReserveTouch(pc, m, r, p, data, k);
    } else {
      ReadingTouch(pc, m, r, p, data, k);
    }
  }

  lemma PublishedTouch(pc: Pc, m: Mem, r: Registry, p: int, data: Address, k: nat)
    requires (pc.Capping? || pc.Occupying?) && Stands(pc, m, r) && Settable(m, p, data, k)
    ensures Stands(pc, Touched(m, m.slots[p].shadow, k), WithLeaf(r, data, k))
  {
    hide Inv, Abs;
    var u := if pc.Capping? then m.(capacity := pc.cap, occupied := pc.live) else m.(occupied := pc.live);
    SoundTouch(u, r, p, data, k);
  }

  lemma ReserveTouch(pc: Pc, m: Mem, r: Registry, p: int, data: Address, k: nat)
    requires (pc.Counting? || pc.Allocating? || pc.Moving? || pc.Placing?) && Stands(pc, m, r) && Settable(m, p, data, k)
    ensures Stands(pc, Touched(m, m.slots[p].shadow, k), WithLeaf(r, data, k))
  {
    hide Sound, LiveSet, Used, Reachable, Unique, LiveCount, OnPath;
    SoundTouch(m, r, p, data, k);
  }

  lemma ReadingTouch(pc: Pc, m: Mem, r: Registry, p: int, data: Address, k: nat)
    requires pc.Entered? || pc.Probing? || pc.Found? || pc.Missing? || pc.Homing? || pc.Inserting? || pc.Failing?
    requires Stands(pc, m, r) && Settable(m, p, data, k)
    ensures Stands(pc, Touched(m, m.slots[p].shadow, k), WithLeaf(r, data, k))
  {
    hide Sound, OnPath, NotSoFar;
    SoundTouch(m, r, p, data, k);
  }

  /** Every leaf sequence of the map has its entry's count. */
  ghost predicate Counted(r: Registry) { forall d :: d in r ==> |r[d].leaves| == r[d].n > 0 }

  lemma StoringTouch(pc: Pc, m: Mem, r: Registry, p: int, data: Address, k: nat)
    requires pc.Storing? && Stands(pc, m, r) && Settable(m, p, data, k) && Undisturbed(pc.op, data) && Counted(r)
    ensures Stands(pc, Touched(m, m.slots[p].shadow, k), WithLeaf(r, data, k))
  {
    hide Inv, Abs, Fits, StoreAll, Careful;
    var h, op, ws := m.slots[p].shadow, pc.op, pc.pending;
    NotFreed(op, ws, m, p, data);
    StoresTouch(ws, m, h, k);
    SlotKept(op, ws, m, p, data);
    var last := StoreAll(ws, m);
    FoundMeans(last, Effect(op, r), p, data);
    SoundTouch(last, Effect(op, r), p, data, k);
    EffectTouch(op, r, data, k);
    TouchCareful(op, ws, m, h, k);
  }

  lemma TouchCareful(op: Op, ws: seq<Write>, m: Mem, h: Handle, k: nat)
    requires Careful(op, ws, m) && InBounds(SetLeaf(h, k), m)
    ensures Careful(op, ws, Touched(m, h, k))
  {
    forall w | w in ws
      ensures Spares(op, w, Touched(m, h, k))
    {
      assert Spares(op, w, m);
    }
  }

  lemma PublishingTouch(pc: Pc, m: Mem, r: Registry, p: int, data: Address, k: nat)
    requires pc.Publishing? && Stands(pc, m, r) && Settable(m, p, data, k)
    ensures Stands(pc, Touched(m, m.slots[p].shadow, k), WithLeaf(r, data, k))
  {
    hide Inv, Abs;
    var u := Mem(pc.next, |pc.next|, pc.live, m.heap);
    assert m.slots[p] in LiveSet(m.slots);
    var q :| 0 <= q < |pc.next| && Live(pc.next[q]) && pc.next[q] == m.slots[p];
    SoundTouch(u, r, q, data, k);
  }
}
