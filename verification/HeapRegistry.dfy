/** The INITCK heap registry as runtime/initck_heap.c runs it, one caller at a
    time: every entry point is proved to act on the finite map its table stands
    for, every probe loop to end, and every run to be a run of the step machine
    that threads interleave. */
module HeapRegistry {
  import opened HeapTable
  import opened HeapMachine

  datatype Status = Done | AllocationFailed

  class Registry {
    var table: array<Entry>
    var occupied: nat
    var heap: Heap

    ghost function Memory(): Mem
      reads this, table
    {
      Mem(table[..], table.Length, occupied, heap)
    }

    ghost function Snapshot(): Table
      reads this, table
    {
      TableOf(Memory())
    }

    ghost predicate Valid()
      reads this, table
    {
      Inv(Snapshot())
    }

    constructor ()
      ensures Valid() && Abs(Snapshot()) == map[] && fresh(table) && Memory() == Mem([], 0, 0, map[])
    {
      table := new Entry[0];
      occupied, heap := 0, map[];
      new;
      assert LiveSet(table[..]) == {};
      assert Used(table[..]) == 0;
    }

    /** The slot of key, or -1. */
    method Find(key: Address, ghost op: Op, ghost sh: Handle, ghost got: bool) returns (p: int)
      requires Valid() && op.data == key
      ensures -1 <= p < table.Length
      ensures p >= 0 <==> key in Abs(Snapshot())
      ensures p >= 0 ==> Live(table[p]) && table[p].key == key &&
                         table[p].shadow in heap && Abs(Snapshot())[key] == RegOf(heap, table[p])
      ensures p < 0 && Live(Entry(key, 0, 0, false)) ==> forall q :: 0 <= q < table.Length ==> table[q].key != key
      ensures Reaches(got, Entered(op, sh), Memory(), if p >= 0 then Found(op, sh, p) else Missing(op, sh), Memory())
    {
      hide Inv, Reachable, Unique, SlotOf, Abs, Reaches, After;
      ghost var start, m := Entered(op, sh), Memory();
      OneStep(got, start, m);
      ReservedKeys(Snapshot());
      if key == NULL || key == TOMBSTONE { return -1; }
      SearchMeans(Snapshot(), key);
      if table.Length == 0 { return -1; }
      ghost var t := table[..];
      InvSlots(Snapshot());
      ghost var h := SlotOf(key, |t|);
      p := SlotOf(key, table.Length);
      ghost var d := 0;
      while true
        invariant 0 <= d < |t| && p == Probe(h, d, |t|)
        invariant Chained(t, h, d)
        invariant forall i :: 0 <= i < d ==> t[Probe(h, i, |t|)].key != key
        invariant Reaches(got, start, m, Probing(op, sh, p), m)
        decreases |t| - d
      {
        Take(got, start, m, Probing(op, sh, p), m);
        if table[p].key == key { return; }
        if table[p].key == NULL {
          SearchOver(t, key, d);
          return -1;
        }
        ChainGrows(t, h, d);
        ProbeAfter(h, d, |t|);
        p := After(p, table.Length);
        d := d + 1;
      }
    }

    /** Room for one more key: grow or compact the table when it would become
        more than three quarters full. Nothing changes when the new table
        cannot be allocated. */
    method Reserve(gotTable: bool, ghost op: Op, ghost sh: Handle) returns (ok: bool)
      requires Valid() && op.New?
      modifies `table, `occupied
      ensures Valid() && heap == old(heap) && Abs(Snapshot()) == old(Abs(Snapshot()))
      ensures table == old(table) || fresh(table)
      ensures LiveSet(table[..]) == old(LiveSet(table[..]))
      ensures ok ==> table.Length > 0 && 4 * (occupied + 1) <= 3 * table.Length
      ensures table != old(table) ==> forall q :: 0 <= q < table.Length ==> table[q].key != TOMBSTONE
      ensures !ok ==> !gotTable && table == old(table) && occupied == old(occupied)
      ensures Reaches(gotTable, Missing(op, sh), old(Memory()), if ok then Homing(op, sh) else Failing(op, sh), Memory())
    {
      hide Inv, Abs, Reachable, Unique, LiveSet, Reaches, LiveCount, Used;
      ghost var start, m := Missing(op, sh), Memory();
      OneStep(gotTable, start, m);
      if (occupied + 1) * 4 <= table.Length * 3 { return true; }
      var live := CountLive(op, sh, gotTable);
      var cap := if table.Length != 0 then table.Length else 64;
      assert PowerOfTwo(cap) by {
        if table.Length == 0 { SixtyFour(); } else { InvSlots(Snapshot()); }
      }
      ghost var size := Grow(live, cap);
      while (live + 1) * 2 > cap
        invariant cap > 0 && PowerOfTwo(cap) && Grow(live, cap) == size
        modifies {}
        decreases 2 * live + 2 - cap
      {
        Doubled(cap);
        cap := cap * 2;
      }
      Onward(gotTable, start, m, Counting(op, sh, 0, 0), m, Counting(op, sh, table.Length, live), m);
      Take(gotTable, start, m, Counting(op, sh, table.Length, live), m);
      Take(gotTable, start, m, Allocating(op, sh, live, cap), m);
      if !gotTable { return false; }
      var next := Rehash(live, cap, op, sh, gotTable);
      SameLive(Snapshot(), Table(next[..], live, heap));
      Onward(gotTable, start, m, Moving(op, sh, live, Blank(cap), 0), m, Moving(op, sh, live, next[..], table.Length), m);
      Published(gotTable, start, m, op, sh, live, next[..]);
      table, occupied := next, live;
      ok := true;
    }

    method CountLive(ghost op: Op, ghost sh: Handle, ghost got: bool) returns (live: nat)
      ensures live == LiveCount(table[..])
      ensures Reaches(got, Counting(op, sh, 0, 0), Memory(), Counting(op, sh, table.Length, live), Memory())
    {
      hide Reaches, LiveCount;
      ghost var start, m := Counting(op, sh, 0, 0), Memory();
      OneStep(got, start, m);
      live := 0;
      NoneLive();
      var i := 0;
      while i < table.Length
        invariant 0 <= i <= table.Length
        invariant live == LiveCount(table[..i])
        invariant Reaches(got, start, m, Counting(op, sh, i, live), m)
      {
        Take(got, start, m, Counting(op, sh, i, live), m);
        LiveSetSnoc(table[..], i);
        assert table[..][..i] == table[..i] && table[..][..i + 1] == table[..i + 1];
        if table[i].key != NULL && table[i].key != TOMBSTONE { live := live + 1; }
        i := i + 1;
      }
      assert table[..table.Length] == table[..];
    }

    /** A table of cap slots with the live entries of this one and no
        tombstones. */
    method Rehash(live: nat, cap: nat, ghost op: Op, ghost sh: Handle, ghost got: bool) returns (next: array<Entry>)
      requires Valid() && PowerOfTwo(cap) && live == LiveCount(table[..]) && (live + 1) * 2 <= cap
      ensures fresh(next) && next.Length == cap
      ensures Reachable(next[..]) && Unique(next[..]) && Used(next[..]) == live
      ensures LiveSet(next[..]) == LiveSet(table[..])
      ensures forall q :: 0 <= q < cap ==> next[q].key != TOMBSTONE
      ensures Reaches(got, Moving(op, sh, live, Blank(cap), 0), Memory(), Moving(op, sh, live, next[..], table.Length), Memory())
    {
      hide Inv, Abs, Reachable, Unique, LiveSet, SlotOf, Used, LiveCount, Reaches, Chained, Advance;
      next := new Entry[cap](i => Vacant);
      assert next[..] == Blank(cap);
      VacantSlots(next[..]);
      ghost var t, m, start := table[..], Memory(), Moving(op, sh, live, Blank(cap), 0);
      OneStep(got, start, m);
      EmptyPrefix(t);
      var i := 0;
      while i < table.Length
        invariant 0 <= i <= |t| && fresh(next) && next.Length == cap && t == table[..] && m == Memory()
        invariant Sized(next[..]) && Reachable(next[..]) && Unique(next[..])
        invariant Used(next[..]) == LiveCount(t[..i]) && LiveSet(next[..]) == LiveSet(t[..i])
        invariant forall q :: 0 <= q < cap ==> next[q].key != TOMBSTONE
        invariant Reaches(got, start, m, Moving(op, sh, live, next[..], i), m)
      {
        LiveSetSnoc(t, i);
        LiveCountPrefix(t, i + 1);
        MoveOn(got, start, op, sh, live, next[..], i, m);
        if table[i].key != NULL && table[i].key != TOMBSTONE {
          MoveSlot(Snapshot(), i, next[..]);
          var p, d := FreeSlot(next, table[i].key);
          InsertKeeps(next[..], t[i], d);
          UsedUpdate(next[..], p, t[i]);
          ghost var was := next[..];
          PlacedAt(got, start, op, sh, live, was, i, m, d);
          next[p] := table[i];
          assert next[..] == was[p := t[i]];
        }
        i := i + 1;
      }
      assert t[..|t|] == t;
    }

    /** DISPOSE: forget the address, leaving a tombstone. The buffer is freed
        after unlock(). */
    method Dispose(data: Address, ghost got: bool) returns (ghost mine: set<Handle>)
      requires Valid()
      modifies this, table
      ensures Valid() && table == old(table) && Abs(Snapshot()) == Disposed(old(Abs(Snapshot())), data)
      ensures Reaches(got, Entered(Op.Dispose(data), 0), old(Memory()), Storing(Op.Dispose(data), [], Nothing, mine), Memory())
    {
      hide Inv, Abs, Reaches;
      ghost var op, m := Op.Dispose(data), Memory();
      mine := {};
      var p := Find(data, op, 0, got);
      if p >= 0 {
        DisposeSlot(Snapshot(), p);
        DisposeRuns(got, op, p, m);
        mine := {table[p].shadow};
        ghost var was := table[..];
        var shadow := table[p].shadow;
        table[p] := Entry(TOMBSTONE, 0, 0, false);
        assert table[..] == was[p := Entry(TOMBSTONE, 0, 0, false)];
        heap := heap - {shadow};
      } else {
        Take(got, Entered(op, 0), m, Missing(op, 0), m);
      }
    }

    /** The referent escaped: all its leaves count as initialized, and later
        lookups treat it as untracked. */
    method Release(data: Address, ghost got: bool)
      requires Valid()
      modifies this, table
      ensures Valid() && table == old(table) && Abs(Snapshot()) == Released(old(Abs(Snapshot())), data)
      ensures Reaches(got, Entered(Op.Release(data), 0), old(Memory()), Storing(Op.Release(data), [], Nothing, {}), Memory())
    {
      hide Inv, Abs, Reaches;
      ghost var op, m := Op.Release(data), Memory();
      var p := Find(data, op, 0, got);
      if p >= 0 {
        FoundEntry(Snapshot(), p);
        ReleaseSlot(Snapshot(), p);
        ReleaseRuns(got, op, p, m);
        if !table[p].released {
          ghost var was := table[..];
          heap := heap[table[p].shadow := Ones(table[p].n)];
          table[p] := table[p].(released := true);
          assert table[..] == was[p := was[p].(released := true)];
        }
      } else {
        Take(got, Entered(op, 0), m, Missing(op, 0), m);
      }
    }

    /** NEW: register data with n unset leaves in the zeroed buffer named by
        shadow, replacing a stale registration. */
    method New(data: Address, n: int, shadow: Handle, gotShadow: bool, gotTable: bool) returns (r: Status)
      requires Valid() && data != TOMBSTONE && shadow !in heap
      modifies this, table
      ensures Valid() && (table == old(table) || fresh(table))
      ensures Abs(Snapshot()) == if r.Done? then Registered(old(Abs(Snapshot())), data, n) else old(Abs(Snapshot()))
      ensures r.AllocationFailed? ==> !gotShadow || !gotTable
      ensures data != NULL && n > 0 && gotShadow ==>
                var op := Op.New(data, n);
                Reaches(gotTable, Entered(op, shadow), old(Memory()),
                        if r.Done? then Storing(op, [], Nothing, {}) else Failing(op, shadow), Memory())
    {
      hide Inv, Abs, SlotOf, Reaches;
      if data == NULL || n <= 0 { return Done; }
      if !gotShadow { return AllocationFailed; }
      ghost var op, m := Op.New(data, n), Memory();
      var p := Find(data, op, shadow, gotTable);
      var e := Entry(data, shadow, n, false);
      ghost var was := table[..];
      if p >= 0 {
        RenewSlot(Snapshot(), p, shadow, n);
        RenewRuns(gotTable, op, p, shadow, m);
        heap := (heap - {table[p].shadow})[shadow := Zeros(n)];
        table[p] := e;
        assert table[..] == was[p := e];
      } else {
        var ok := Reserve(gotTable, op, shadow);
        Onward(gotTable, Entered(op, shadow), m, Missing(op, shadow), m, if ok then Homing(op, shadow) else Failing(op, shadow), Memory());
        if !ok { return AllocationFailed; }
        ghost var roomy := Memory();
        Insert(e, gotTable);
        Onward(gotTable, Entered(op, shadow), m, Homing(op, shadow), roomy, Storing(op, [], Nothing, {}), Memory());
      }
      r := Done;
    }

    /** The second half of NEW, with room made: the first free slot on the
        path of the new key. */
    method Insert(e: Entry, ghost got: bool)
      requires Valid() && Live(e) && e.n > 0 && !e.released && e.shadow !in heap
      requires e.key !in Abs(Snapshot())
      requires table.Length > 0 && 4 * (occupied + 1) <= 3 * table.Length
      modifies this, table
      ensures Valid() && table == old(table)
      ensures Abs(Snapshot()) == Registered(old(Abs(Snapshot())), e.key, e.n)
      ensures Reaches(got, Homing(Op.New(e.key, e.n), e.shadow), old(Memory()), Storing(Op.New(e.key, e.n), [], Nothing, {}), Memory())
    {
      hide Inv, Abs, Reachable, Unique, SlotOf, Reaches;
      InvSlots(Snapshot());
      SearchMeans(Snapshot(), e.key);
      var p, d := FreeSlot(table, e.key);
      NewInsert(Snapshot(), e, d);
      ghost var was := table[..];
      InsertRuns(got, e, Memory(), d);
      if table[p].key == NULL { occupied := occupied + 1; }
      heap := heap[e.shadow := Zeros(e.n)];
      table[p] := e;
      assert table[..] == was[p := e];
    }

    /** The state of the n-leaf referent at data. */
    method At(data: Address, n: int, ghost got: bool) returns (r: Leaves, shadow: Handle)
      requires Valid()
      ensures r == LookedUp(Abs(Snapshot()), data, n, 0, n)
      ensures r.Tracked? ==> shadow in heap && heap[shadow] == Abs(Snapshot())[data].leaves && |heap[shadow]| == n
      ensures var op := Op.PartAt(data, n, 0, n);
              Reaches(got, Entered(op, 0), Memory(), Storing(op, [], Looked(r), {}), Memory())
    {
      hide Inv, Abs, Reaches;
      ghost var op, m := Op.PartAt(data, n, 0, n), Memory();
      var p := Find(data, op, 0, got);
      Take(got, Entered(op, 0), m, if p >= 0 then Found(op, 0, p) else Missing(op, 0), m);
      shadow := 0;
      if p >= 0 { FoundEntry(Snapshot(), p); }
      if p >= 0 && !table[p].released && table[p].n == n {
        r, shadow := Tracked(data, 0), table[p].shadow;
      } else {
        r := Fallback(Ones(n));
      }
    }

    /** The count leaves at offset within it; a part outside the registered
        leaves is untracked. */
    method PartAt(data: Address, n: int, offset: int, count: int, ghost got: bool) returns (r: Leaves, shadow: Handle)
      requires Valid()
      ensures r == LookedUp(Abs(Snapshot()), data, n, offset, count)
      ensures r.Tracked? ==> shadow in heap && heap[shadow] == Abs(Snapshot())[data].leaves && 0 <= offset <= offset + count <= |heap[shadow]|
      ensures var op := Op.PartAt(data, n, offset, count);
              Reaches(got, Entered(op, 0), Memory(), Storing(op, [], Looked(r), {}), Memory())
    {
      hide Inv, Abs, Reaches;
      ghost var op, m := Op.PartAt(data, n, offset, count), Memory();
      var p := Find(data, op, 0, got);
      Take(got, Entered(op, 0), m, if p >= 0 then Found(op, 0, p) else Missing(op, 0), m);
      shadow := 0;
      if p >= 0 { FoundEntry(Snapshot(), p); }
      if p >= 0 && !table[p].released && table[p].n == n && offset >= 0 && count >= 0 && offset <= n - count {
        r, shadow := Tracked(data, offset), table[p].shadow;
      } else {
        r := Fallback(Ones(count));
      }
    }

    /** Compiled code sets a leaf through the buffer a lookup returned: only
        that address changes. */
    method SetLeaf(data: Address, shadow: Handle, i: int)
      requires Valid() && data in Abs(Snapshot()) && shadow in heap && 0 <= i < |heap[shadow]|
      requires exists p :: 0 <= p < table.Length && table[p].key == data && table[p].shadow == shadow
      modifies this
      ensures Valid() && table == old(table)
      ensures var m := old(Abs(Snapshot()));
              0 <= i < |m[data].leaves| && Abs(Snapshot()) == m[data := m[data].(leaves := m[data].leaves[i := true])]
    {
      hide Inv, Abs;
      ReservedKeys(Snapshot());
      ghost var p :| 0 <= p < table.Length && table[p].key == data && table[p].shadow == shadow;
      SetSlotLeaf(Snapshot(), p, i);
      heap := heap[shadow := heap[shadow][i := true]];
    }
  }

  /** The first slot on the path of key that is not live, and its distance. */
  method FreeSlot(t: array<Entry>, key: Address) returns (p: nat, d: nat)
    requires Sized(t[..]) && Used(t[..]) < t.Length
    ensures d < t.Length && p == Probe(SlotOf(key, t.Length), d, t.Length)
    ensures Chained(t[..], SlotOf(key, t.Length), d) && !Live(t[p])
    ensures forall k :: 0 <= k < d ==> Live(t[Probe(SlotOf(key, t.Length), k, t.Length)])
  {
    hide Used, SlotOf;
    ghost var h := SlotOf(key, t.Length);
    p := SlotOf(key, t.Length);
    d := 0;
    while t[p].key != NULL && t[p].key != TOMBSTONE
      invariant 0 <= d < t.Length && p == Probe(h, d, t.Length) && Chained(t[..], h, d)
      invariant forall k :: 0 <= k < d ==> Live(t[Probe(h, k, t.Length)])
      decreases t.Length - d
    {
      ChainGrows(t[..], h, d);
      p := After(p, t.Length);
      d := d + 1;
    }
  }

  ghost function Blank(cap: nat): seq<Entry> { seq(cap, k => Vacant) }

  lemma NoneLive()
    ensures LiveCount([]) == 0
  {
  }

  // ---- these runs are runs of the machine ----

  lemma Published(got: bool, start: Pc, m: Mem, op: Op, sh: Handle, live: nat, next: seq<Entry>)
    requires m.capacity == |m.slots| && Reaches(got, start, m, Moving(op, sh, live, next, |m.slots|), m)
    ensures Reaches(got, start, m, Homing(op, sh), Mem(next, |next|, live, m.heap))
  {
    hide Reaches;
    var m1 := m.(slots := next);
    Take(got, start, m, Moving(op, sh, live, next, |m.slots|), m);
    Take(got, start, m, Publishing(op, sh, live, next), m);
    Take(got, start, m, Capping(op, sh, live, |next|), m1);
    Take(got, start, m, Occupying(op, sh, live), m1.(capacity := |next|));
  }

  lemma MoveOn(got: bool, start: Pc, op: Op, sh: Handle, live: nat, next: seq<Entry>, i: nat, m: Mem)
    requires i < |m.slots| == m.capacity && Sized(next) && Reaches(got, start, m, Moving(op, sh, live, next, i), m)
    ensures if Live(m.slots[i]) then Reaches(got, start, m, Placing(op, sh, live, next, i, SlotOf(m.slots[i].key, |next|)), m)
            else Reaches(got, start, m, Moving(op, sh, live, next, i + 1), m)
  {
    hide Reaches, SlotOf;
    Take(got, start, m, Moving(op, sh, live, next, i), m);
  }

  lemma PlacedAt(got: bool, start: Pc, op: Op, sh: Handle, live: nat, next: seq<Entry>, i: nat, m: Mem, d: nat)
    requires i < |m.slots| && Sized(next) && d < |next|
    requires Reaches(got, start, m, Placing(op, sh, live, next, i, SlotOf(m.slots[i].key, |next|)), m)
    requires var h := SlotOf(m.slots[i].key, |next|);
             (forall k :: 0 <= k < d ==> Live(next[Probe(h, k, |next|)])) && next[Probe(h, d, |next|)].key == NULL
    ensures var p := Probe(SlotOf(m.slots[i].key, |next|), d, |next|);
            Reaches(got, start, m, Moving(op, sh, live, next[p := m.slots[i]], i + 1), m)
  {
    hide Reaches, SlotOf;
    var h := SlotOf(m.slots[i].key, |next|);
    PlaceProbes(got, op, sh, live, next, i, m, d);
    Onward(got, start, m, Placing(op, sh, live, next, i, h), m, Placing(op, sh, live, next, i, Probe(h, d, |next|)), m);
    Take(got, start, m, Placing(op, sh, live, next, i, Probe(h, d, |next|)), m);
  }

  lemma DisposeRuns(got: bool, op: Op, p: nat, m: Mem)
    requires op.Dispose? && p < |m.slots| && Reaches(got, Entered(op, 0), m, Found(op, 0, p), m)
    ensures var e := m.slots[p];
            Reaches(got, Entered(op, 0), m, Storing(op, [], Nothing, {e.shadow}),
                    m.(slots := m.slots[p := Entry(TOMBSTONE, 0, 0, false)], heap := m.heap - {e.shadow}))
  {
    hide Reaches, Fits, StoreAll, EntryStores;
    var m1 := m.(heap := m.heap - {m.slots[p].shadow});
    Take(got, Entered(op, 0), m, Found(op, 0, p), m);
    KeyedStored(p, TOMBSTONE, 0, 0, m1);
    var ws, mine := DisposeStores(p), {m.slots[p].shadow};
    StoresRun(got, op, ws, Nothing, mine, m1);
    Onward(got, Entered(op, 0), m, Storing(op, ws, Nothing, mine), m1, Storing(op, [], Nothing, mine), StoreAll(ws, m1));
  }

  lemma ReleaseRuns(got: bool, op: Op, p: nat, m: Mem)
    requires op.Release? && p < |m.slots| && OwnsBuffer(m.heap, m.slots[p]) && Reaches(got, Entered(op, 0), m, Found(op, 0, p), m)
    ensures var e := m.slots[p];
            Reaches(got, Entered(op, 0), m, Storing(op, [], Nothing, {}),
                    if e.released then m else m.(slots := m.slots[p := e.(released := true)], heap := m.heap[e.shadow := Ones(e.n)]))
  {
    hide Reaches, Fits, StoreAll, LeafStores;
    Take(got, Entered(op, 0), m, Found(op, 0, p), m);
    if !m.slots[p].released {
      var ws := ReleaseStores(p, m.slots[p]);
      ReleaseStored(p, m);
      StoresRun(got, op, ws, Nothing, {}, m);
      Onward(got, Entered(op, 0), m, Storing(op, ws, Nothing, {}), m, Storing(op, [], Nothing, {}), StoreAll(ws, m));
    }
  }

  lemma RenewRuns(got: bool, op: Op, p: nat, sh: Handle, m: Mem)
    requires op.New? && op.n > 0 && p < |m.slots| && m.slots[p].key == op.data && m.slots[p].shadow in m.heap && sh !in m.heap
    requires Reaches(got, Entered(op, sh), m, Found(op, sh, p), m)
    ensures Reaches(got, Entered(op, sh), m, Storing(op, [], Nothing, {}),
                    m.(slots := m.slots[p := Entry(op.data, sh, op.n, false)], heap := (m.heap - {m.slots[p].shadow})[sh := Zeros(op.n)]))
  {
    hide Reaches, Fits, StoreAll, RenewStores, Zeros;
    var was, m1 := m.slots[p].shadow, m.(heap := m.heap[sh := Zeros(op.n)]);
    var ws := RenewStores(p, was, sh, op.n);
    Take(got, Entered(op, sh), m, Found(op, sh, p), m);
    RenewStored(p, was, sh, op.n, m1);
    assert m1.heap - {was} == (m.heap - {was})[sh := Zeros(op.n)];
    StoresRun(got, op, ws, Nothing, {}, m1);
    Onward(got, Entered(op, sh), m, Storing(op, ws, Nothing, {}), m1, Storing(op, [], Nothing, {}), StoreAll(ws, m1));
  }

  lemma InsertRuns(got: bool, e: Entry, m: Mem, d: nat)
    requires Live(e) && e.n > 0 && !e.released && m.capacity == |m.slots| && Sized(m.slots) && d < |m.slots|
    requires var h := SlotOf(e.key, |m.slots|);
             (forall k :: 0 <= k < d ==> Live(m.slots[Probe(h, k, |m.slots|)])) && !Live(m.slots[Probe(h, d, |m.slots|)])
    ensures var p := Probe(SlotOf(e.key, |m.slots|), d, |m.slots|);
            Reaches(got, Homing(Op.New(e.key, e.n), e.shadow), m, Storing(Op.New(e.key, e.n), [], Nothing, {}),
                    Mem(m.slots[p := e], m.capacity, if m.slots[p].key == NULL then m.occupied + 1 else m.occupied, m.heap[e.shadow := Zeros(e.n)]))
  {
    hide Reaches, Fits, StoreAll, InsertStores, Zeros, SlotOf;
    var op, sh, h := Op.New(e.key, e.n), e.shadow, SlotOf(e.key, |m.slots|);
    var start, p := Homing(op, sh), Probe(h, d, |m.slots|);
    OneStep(got, start, m);
    InsertProbes(got, op, sh, m, d);
    Onward(got, start, m, Inserting(op, sh, h), m, Inserting(op, sh, p), m);
    Take(got, start, m, Inserting(op, sh, p), m);
    var ws, m1 := InsertStores(m, p, e.key, sh, e.n), m.(heap := m.heap[sh := Zeros(e.n)]);
    InsertStored(p, e.key, sh, e.n, m, m1);
    StoresRun(got, op, ws, Nothing, {}, m1);
    Onward(got, start, m, Storing(op, ws, Nothing, {}), m1, Storing(op, [], Nothing, {}), StoreAll(ws, m1));
  }

  lemma MoveSlot(t: Table, i: int, next: seq<Entry>)
    requires Inv(t) && 0 <= i < |t.slots| && Live(t.slots[i]) && LiveSet(next) == LiveSet(t.slots[..i])
    requires Used(next) == LiveCount(t.slots[..i]) < LiveCount(t.slots[..i + 1]) <= LiveCount(t.slots)
    requires (LiveCount(t.slots) + 1) * 2 <= |next|
    ensures forall q :: 0 <= q < |next| ==> next[q].key != t.slots[i].key
    ensures Used(next) < |next|
  {
    hide Inv, LiveSet, Unique, Used, LiveCount;
    InvSlots(t);
    NotYetMoved(t.slots, i, next);
  }
}
