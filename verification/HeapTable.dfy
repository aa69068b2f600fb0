/** The INITCK heap table as a value: an open-addressing hash table with linear
    probing and tombstones, the shadow buffers it owns, and the finite map it
    stands for. */
module HeapTable {
  import opened Bits

  type Address = a: int | 0 <= a < 0x1_0000_0000_0000_0000
  type Handle = nat

  const NULL: Address := 0
  const TOMBSTONE: Address := 1

  /** One slot. A key of NULL is an empty slot, TOMBSTONE a deleted one; shadow
      names the buffer with the leaf states. */
  datatype Entry = Entry(key: Address, shadow: Handle, n: int, released: bool)

  const Vacant: Entry := Entry(NULL, 0, 0, false)

  predicate Live(e: Entry) { e.key != NULL && e.key != TOMBSTONE }

  // ---- hashing and probing ----

  lemma {:induction false} BitAndSign(a: int, b: int)
    ensures (a >= 0 || b >= 0) <==> BitAnd(a, b) >= 0
    decreases Magnitude(a) + Magnitude(b)
  {
    if !(Settled(a) && Settled(b)) { BitAndSign(a / 2, b / 2); }
  }

  lemma BitXorSign(a: int, b: int)
    requires a >= 0 && b >= 0
    ensures BitXor(a, b) >= 0
  {
    BitAndSign(BitNot(a), BitNot(b));
    BitAndSign(BitOr(a, b), BitNot(BitAnd(a, b)));
  }

  /** The mixing of slot_of in 64-bit unsigned arithmetic. */
  function Mix(key: Address): (h: int)
    ensures h >= 0
  {
    BitXorSign(key, key / 0x2_0000_0000);
    var h := BitXor(key, key / 0x2_0000_0000) * 0xff51afd7ed558ccd % 0x1_0000_0000_0000_0000;
    BitXorSign(h, h / 0x2_0000_0000);
    BitXor(h, h / 0x2_0000_0000)
  }

  ghost predicate PowerOfTwo(cap: int) { exists k: nat :: cap == Pow2(k) }

  function SlotOf(key: Address, cap: nat): (i: int)
    requires PowerOfTwo(cap)
    ensures 0 <= i < cap
  {
    MaskFits(Mix(key), cap);
    BitAnd(Mix(key), cap - 1)
  }

  /** The slot after i: (i + 1) & (cap - 1). */
  function After(i: nat, cap: nat): (j: nat)
    requires i < cap && PowerOfTwo(cap)
    ensures j == if i + 1 == cap then 0 else i + 1
  {
    MaskFits(i + 1, cap);
    ModSmall(i + 1, cap);
    BitAnd(i + 1, cap - 1)
  }

  lemma MaskFits(x: int, cap: int)
    requires x >= 0 && PowerOfTwo(cap)
    ensures BitAnd(x, cap - 1) == x % cap && 0 <= x % cap < cap
  {
    var k: nat :| cap == Pow2(k);
    BitAndMask(x, k);
  }

  lemma ModSmall(x: int, m: int)
    requires 0 <= x <= m && 0 < m
    ensures x % m == if x == m then 0 else x
  {
    ModUnique(x, m, if x == m then 1 else 0, if x == m then 0 else x);
  }

  /** The slot probed after d steps from home h, and its inverse. */
  function Probe(h: int, d: int, cap: int): (p: int)
    requires 0 <= h < cap && 0 <= d < cap
    ensures 0 <= p < cap
  {
    if h + d < cap then h + d else h + d - cap
  }

  function Dist(h: int, p: int, cap: int): (d: int)
    requires 0 <= h < cap && 0 <= p < cap
    ensures 0 <= d < cap && Probe(h, d, cap) == p
  {
    if p >= h then p - h else p - h + cap
  }

  // ---- invariants of the slots ----

  ghost predicate Sized(t: seq<Entry>) { PowerOfTwo(|t|) }

  function Home(t: seq<Entry>, p: int): int
    requires Sized(t) && 0 <= p < |t|
  {
    SlotOf(t[p].key, |t|)
  }

  /** No address is registered in two slots. */
  ghost predicate Unique(t: seq<Entry>) {
    forall p, q :: 0 <= p < |t| && 0 <= q < |t| && Live(t[p]) && Live(t[q]) && t[p].key == t[q].key ==> p == q
  }

  /** Every slot probed before step d from home h is in use. */
  ghost predicate Chained(t: seq<Entry>, h: int, d: int)
    requires 0 <= h < |t| && 0 <= d <= |t|
  {
    forall i :: 0 <= i < d ==> t[Probe(h, i, |t|)].key != NULL
  }

  /** Every live key is reachable from its home slot through used slots. */
  ghost predicate Reachable(t: seq<Entry>)
    requires Sized(t)
  {
    forall p :: 0 <= p < |t| && Live(t[p]) ==> Chained(t, Home(t, p), Dist(Home(t, p), p, |t|))
  }

  /** The number of slots that are not empty. */
  function Used(t: seq<Entry>): (u: nat)
    ensures u <= |t|
  {
    if t == [] then 0 else Used(t[..|t| - 1]) + if t[|t| - 1].key != NULL then 1 else 0
  }

  function LiveCount(t: seq<Entry>): (u: nat)
    ensures u <= |t|
  {
    if t == [] then 0 else LiveCount(t[..|t| - 1]) + if Live(t[|t| - 1]) then 1 else 0
  }

  ghost function LiveSet(t: seq<Entry>): set<Entry> {
    set p | 0 <= p < |t| && Live(t[p]) :: t[p]
  }

  lemma {:induction false} UsedUpdate(t: seq<Entry>, p: int, e: Entry)
    requires 0 <= p < |t|
    ensures Used(t[p := e]) ==
            Used(t) - (if t[p].key != NULL then 1 else 0) + (if e.key != NULL then 1 else 0)
  {
    var n := |t| - 1;
    if p == n {
      assert t[p := e][..n] == t[..n];
    } else {
      assert t[p := e][..n] == t[..n][p := e];
      UsedUpdate(t[..n], p, e);
    }
  }

  /** A table that is not full has an empty slot. */
  lemma {:induction false} NotFull(t: seq<Entry>) returns (p: int)
    requires Used(t) < |t|
    ensures 0 <= p < |t| && t[p].key == NULL
  {
    var n := |t| - 1;
    if t[n].key == NULL { p := n; } else { p := NotFull(t[..n]); }
  }

  lemma {:induction false} UsedVacant(t: seq<Entry>)
    requires forall p :: 0 <= p < |t| ==> t[p] == Vacant
    ensures Used(t) == 0
  {
    if t != [] { UsedVacant(t[..|t| - 1]); }
  }

  lemma {:induction false} LiveAtMostUsed(t: seq<Entry>)
    ensures LiveCount(t) <= Used(t)
  {
    if t != [] { LiveAtMostUsed(t[..|t| - 1]); }
  }

  /** Walking off the end of a probe path without meeting an empty slot is
      impossible in a table that is not full. */
  lemma PathEnds(t: seq<Entry>, h: int)
    requires 0 <= h < |t| && Used(t) < |t|
    ensures !Chained(t, h, |t|)
  {
    var p := NotFull(t);
    assert Probe(h, Dist(h, p, |t|), |t|) == p;
  }

  /** An empty slot, or a full walk, ends the search: a key further on would
      not be reachable. */
  lemma SearchOver(t: seq<Entry>, key: Address, d: int)
    requires Sized(t) && Reachable(t) && Unique(t) && key != NULL && key != TOMBSTONE
    requires var h := SlotOf(key, |t|);
             && 0 <= d < |t| && t[Probe(h, d, |t|)].key == NULL
             && forall i :: 0 <= i < d ==> t[Probe(h, i, |t|)].key != key
    ensures forall p :: 0 <= p < |t| ==> t[p].key != key
  {
    var h := SlotOf(key, |t|);
    forall p | 0 <= p < |t|
      ensures t[p].key != key
    {
      var b := Dist(h, p, |t|);
      assert Live(t[p]) && Home(t, p) == h ==> Chained(t, h, b);
    }
  }

  /** Storing a new key in the first slot of its path that is not live. */
  lemma InsertKeeps(t: seq<Entry>, e: Entry, d: int)
    requires Sized(t) && Reachable(t) && Unique(t) && Live(e) && 0 <= d < |t|
    requires forall q :: 0 <= q < |t| ==> t[q].key != e.key
    requires var h := SlotOf(e.key, |t|); Chained(t, h, d) && !Live(t[Probe(h, d, |t|)])
    ensures var t' := t[Probe(SlotOf(e.key, |t|), d, |t|) := e];
            Sized(t') && Reachable(t') && Unique(t') && LiveSet(t') == LiveSet(t) + {e}
  {
    var h, n := SlotOf(e.key, |t|), |t|;
    var p := Probe(h, d, n);
    var t' := t[p := e];
    forall q | 0 <= q < n && Live(t'[q])
      ensures Chained(t', Home(t', q), Dist(Home(t', q), q, n))
    {
      if q != p { assert Chained(t, Home(t, q), Dist(Home(t, q), q, n)); }
    }
    LiveSetInsert(t, p, e);
  }

  lemma LiveSetInsert(t: seq<Entry>, p: int, e: Entry)
    requires 0 <= p < |t| && !Live(t[p]) && Live(e)
    ensures LiveSet(t[p := e]) == LiveSet(t) + {e}
  {
    var t' := t[p := e];
    forall x | x in LiveSet(t) + {e}
      ensures x in LiveSet(t')
    {
      if x == e {
        assert t'[p] == e;
      } else {
        var q :| 0 <= q < |t| && Live(t[q]) && t[q] == x;
        assert t'[q] == x;
      }
    }
  }

  /** Rewriting a live slot in place, or turning it into a tombstone. */
  lemma RewriteKeeps(t: seq<Entry>, p: int, e: Entry)
    requires Sized(t) && Reachable(t) && Unique(t) && 0 <= p < |t| && Live(t[p])
    requires e.key == t[p].key || e.key == TOMBSTONE
    ensures var t' := t[p := e];
            Sized(t') && Reachable(t') && Unique(t') && Used(t') == Used(t) &&
            LiveSet(t') == LiveSet(t) - {t[p]} + (if Live(e) then {e} else {})
  {
    var n, t' := |t|, t[p := e];
    forall q | 0 <= q < n && Live(t'[q])
      ensures Chained(t', Home(t', q), Dist(Home(t', q), q, n))
    {
      assert Chained(t, Home(t, q), Dist(Home(t, q), q, n));
    }
    UsedUpdate(t, p, e);
    LiveSetRewrite(t, p, e);
  }

  lemma LiveSetRewrite(t: seq<Entry>, p: int, e: Entry)
    requires Unique(t) && 0 <= p < |t| && Live(t[p])
    ensures LiveSet(t[p := e]) == LiveSet(t) - {t[p]} + (if Live(e) then {e} else {})
  {
    var t' := t[p := e];
    forall x | x in LiveSet(t) - {t[p]} + (if Live(e) then {e} else {})
      ensures x in LiveSet(t')
    {
      if x == e && Live(e) {
        assert t'[p] == x;
      } else {
        var q :| 0 <= q < |t| && Live(t[q]) && t[q] == x;
        assert t'[q] == x;
      }
    }
    forall x | x in LiveSet(t')
      ensures x in LiveSet(t) - {t[p]} + (if Live(e) then {e} else {})
    {
      var q :| 0 <= q < |t'| && Live(t'[q]) && t'[q] == x;
      if q != p { assert t[q] == x && x != t[p]; }
    }
  }

  // ---- the table and the map it stands for ----

  /** The slots, the count of used ones, and the shadow buffers they own. */
  datatype Table = Table(slots: seq<Entry>, occupied: nat, heap: Heap)

  type Heap = map<Handle, seq<bool>>

  /** What is known about a registered address. */
  datatype Reg = Reg(leaves: seq<bool>, n: int, released: bool)

  type Registry = map<Address, Reg>

  predicate AllSet(leaves: seq<bool>) { forall i :: 0 <= i < |leaves| ==> leaves[i] }

  /** e owns a buffer of its n leaves; a released one reads as initialized. */
  predicate OwnsBuffer(heap: Heap, e: Entry) {
    e.shadow in heap && e.n > 0 && |heap[e.shadow]| == e.n && (e.released ==> AllSet(heap[e.shadow]))
  }

  ghost predicate Inv(t: Table) {
    && (t.slots == [] || Sized(t.slots))
    && t.occupied == Used(t.slots)
    && 4 * t.occupied <= 3 * |t.slots|
    && Unique(t.slots)
    && (t.slots != [] ==> Reachable(t.slots))
    && Owned(LiveSet(t.slots), t.heap)
  }

  /** Each live entry owns its buffer, no two share one, and no buffer is lost. */
  ghost predicate Owned(live: set<Entry>, heap: Heap) {
    && (forall e :: e in live ==> OwnsBuffer(heap, e))
    && (forall e, f :: e in live && f in live && e.shadow == f.shadow ==> e == f)
    && (forall h :: h in heap ==> exists e :: e in live && e.shadow == h)
  }

  function RegOf(heap: Heap, e: Entry): Reg
    requires e.shadow in heap
  {
    Reg(heap[e.shadow], e.n, e.released)
  }

  ghost predicate Distinct(live: set<Entry>) {
    forall e, f :: e in live && f in live && e.key == f.key ==> e == f
  }

  lemma KeysDistinct(t: seq<Entry>)
    requires Unique(t)
    ensures Distinct(LiveSet(t))
  {
  }

  ghost function Keys(live: set<Entry>): set<Address> { set e | e in live :: e.key }

  /** The entry registered under k. */
  ghost function EntryOf(live: set<Entry>, k: Address): (e: Entry)
    requires k in Keys(live)
    ensures e in live && e.key == k
  {
    var e :| e in live && e.key == k; e
  }

  lemma EntryUnique(live: set<Entry>, e: Entry)
    requires Distinct(live) && e in live
    ensures e.key in Keys(live) && EntryOf(live, e.key) == e
  {
  }

  ghost predicate Backed(live: set<Entry>, heap: Heap) {
    forall e :: e in live ==> e.shadow in heap
  }

  ghost function View(live: set<Entry>, heap: Heap): Registry
    requires Backed(live, heap)
  {
    map k | k in Keys(live) :: RegOf(heap, EntryOf(live, k))
  }

  /** The map from registered addresses to their state. */
  ghost function Abs(t: Table): Registry
    requires Inv(t)
  {
    View(LiveSet(t.slots), t.heap)
  }

  // ---- what each operation does to the map ----

  function Zeros(n: nat): seq<bool> { seq(n, i => false) }
  function Ones(n: int): seq<bool> { if n <= 0 then [] else seq(n, i => true) }

  ghost function Registered(m: Registry, data: Address, n: int): Registry {
    if data == NULL || n <= 0 then m else m[data := Reg(Zeros(n), n, false)]
  }

  ghost function Disposed(m: Registry, data: Address): Registry { m - {data} }

  ghost function Released(m: Registry, data: Address): Registry {
    if data in m then m[data := Reg(Ones(m[data].n), m[data].n, true)] else m
  }

  /** The state of a lookup site: the registered leaves from offset on, or a
      fallback of initialized leaves. */
  datatype Leaves = Tracked(data: Address, offset: int) | Fallback(leaves: seq<bool>)

  ghost function LookedUp(m: Registry, data: Address, n: int, offset: int, count: int): Leaves {
    if data in m && !m[data].released && m[data].n == n && offset >= 0 && count >= 0 && offset <= n - count
    then Tracked(data, offset)
    else Fallback(Ones(count))
  }

  // ---- the table operations meet them ----

  lemma OwnedInsert(live: set<Entry>, heap: Heap, e: Entry)
    requires Owned(live, heap) && e.shadow !in heap && e.n > 0 && !e.released
    ensures Owned(live + {e}, heap[e.shadow := Zeros(e.n)])
  {
    var heap' := heap[e.shadow := Zeros(e.n)];
    forall h | h in heap'
      ensures exists f :: f in live + {e} && f.shadow == h
    {
      if h == e.shadow {
        assert e in live + {e};
      } else {
        var f :| f in live && f.shadow == h;
        assert f in live + {e};
      }
    }
  }

  /** A new key adds its entry and leaves the others in place. */
  lemma KeysInsert(live: set<Entry>, e: Entry)
    requires Distinct(live) && e.key !in Keys(live)
    ensures Distinct(live + {e}) && Keys(live + {e}) == Keys(live) + {e.key} && EntryOf(live + {e}, e.key) == e
    ensures forall k :: k in Keys(live) ==> EntryOf(live + {e}, k) == EntryOf(live, k)
  {
    var live' := live + {e};
    forall f | f in live
      ensures f.key in Keys(live) && f.key != e.key
    {
    }
    EntryUnique(live', e);
    forall k | k in Keys(live)
      ensures EntryOf(live', k) == EntryOf(live, k)
    {
      EntryUnique(live', EntryOf(live, k));
    }
  }

  lemma ViewInsert(live: set<Entry>, heap: Heap, e: Entry)
    requires Backed(live, heap) && Distinct(live) && e.key !in Keys(live)
    requires e.key != NULL && e.shadow !in heap && e.n > 0 && !e.released
    ensures Backed(live + {e}, heap[e.shadow := Zeros(e.n)])
    ensures View(live + {e}, heap[e.shadow := Zeros(e.n)]) == Registered(View(live, heap), e.key, e.n)
  {
    hide Keys, EntryOf, Distinct, Zeros;
    KeysInsert(live, e);
  }

  /** Registering a new address in the first slot of its path that is free. */
  lemma NewInsert(t: Table, e: Entry, d: int)
    requires Inv(t) && t.slots != [] && Live(e) && 0 <= d < |t.slots| && e.n > 0 && !e.released
    requires 4 * (t.occupied + 1) <= 3 * |t.slots|
    requires forall q :: 0 <= q < |t.slots| ==> t.slots[q].key != e.key
    requires var h := SlotOf(e.key, |t.slots|); Chained(t.slots, h, d) && !Live(t.slots[Probe(h, d, |t.slots|)])
    requires e.shadow !in t.heap
    ensures var p := Probe(SlotOf(e.key, |t.slots|), d, |t.slots|);
            var u := Table(t.slots[p := e], if t.slots[p].key == NULL then t.occupied + 1 else t.occupied, t.heap[e.shadow := Zeros(e.n)]);
            Inv(u) && Abs(u) == Registered(Abs(t), e.key, e.n)
  {
    var p := Probe(SlotOf(e.key, |t.slots|), d, |t.slots|);
    InsertKeeps(t.slots, e, d);
    UsedUpdate(t.slots, p, e);
    KeysDistinct(t.slots);
    OwnedInsert(LiveSet(t.slots), t.heap, e);
    ViewInsert(LiveSet(t.slots), t.heap, e);
  }

  /** The buffers after a live slot's entry was becomes e: its old buffer goes,
      e's comes, every other one stays. */
  ghost predicate Swapped(heap: Heap, was: Entry, e: Entry, heap': Heap) {
    && heap'.Keys == heap.Keys - {was.shadow} + (if Live(e) then {e.shadow} else {})
    && (forall h :: h in heap && h != was.shadow && !(Live(e) && h == e.shadow) ==> heap'[h] == heap[h])
    && (Live(e) ==> OwnsBuffer(heap', e) && (e.shadow == was.shadow || e.shadow !in heap))
  }

  ghost function Replaced(live: set<Entry>, was: Entry, e: Entry): set<Entry> {
    live - {was} + (if Live(e) then {e} else {})
  }

  lemma OwnedRewrite(live: set<Entry>, heap: Heap, was: Entry, e: Entry, heap': Heap)
    requires Owned(live, heap) && was in live && Swapped(heap, was, e, heap')
    ensures Owned(Replaced(live, was, e), heap')
  {
    NoneLost(live, heap, was, e, heap');
  }

  lemma NoneLost(live: set<Entry>, heap: Heap, was: Entry, e: Entry, heap': Heap)
    requires Owned(live, heap) && was in live && Swapped(heap, was, e, heap')
    ensures forall h :: h in heap' ==> exists f :: f in Replaced(live, was, e) && f.shadow == h
  {
    hide OwnsBuffer;
    var live' := Replaced(live, was, e);
    forall h | h in heap'
      ensures exists f :: f in live' && f.shadow == h
    {
      if Live(e) && h == e.shadow {
        assert e in live';
      } else {
        var f :| f in live && f.shadow == h;
        assert f in live';
      }
    }
  }

  lemma KeysRewrite(live: set<Entry>, was: Entry, e: Entry)
    requires Distinct(live) && was in live && (Live(e) ==> e.key == was.key)
    ensures Distinct(Replaced(live, was, e))
    ensures Keys(Replaced(live, was, e)) == Keys(live) - {was.key} + (if Live(e) then {e.key} else {})
  {
    var live' := Replaced(live, was, e);
    forall k | k in Keys(live) && k != was.key
      ensures k in Keys(live')
    {
      assert EntryOf(live, k) in live';
    }
  }

  /** Every other address keeps its entry and its buffer. */
  lemma OthersStay(live: set<Entry>, heap: Heap, was: Entry, e: Entry, heap': Heap, k: Address)
    requires Owned(live, heap) && Distinct(live) && was in live && Swapped(heap, was, e, heap')
    requires k in Keys(live) && k != was.key && Distinct(Replaced(live, was, e))
    ensures var f := EntryOf(live, k);
            && k in Keys(Replaced(live, was, e)) && EntryOf(Replaced(live, was, e), k) == f
            && f.shadow in heap && f.shadow in heap' && heap'[f.shadow] == heap[f.shadow]
  {
    var f := EntryOf(live, k);
    assert f.shadow != was.shadow;
    EntryUnique(Replaced(live, was, e), f);
  }

  ghost predicate Stays(live: set<Entry>, heap: Heap, live': set<Entry>, heap': Heap, k: Address)
    requires Backed(live, heap) && Backed(live', heap')
  {
    k in Keys(live) && k in Keys(live') && EntryOf(live', k) == EntryOf(live, k) &&
    RegOf(heap', EntryOf(live, k)) == RegOf(heap, EntryOf(live, k))
  }

  /** A view that keeps every address but key, which it rewrites or forgets. */
  lemma ViewAt(live: set<Entry>, heap: Heap, live': set<Entry>, heap': Heap, key: Address, e: Entry)
    requires Backed(live, heap) && Backed(live', heap') && key in Keys(live)
    requires forall k :: k in Keys(live) && k != key ==> Stays(live, heap, live', heap', k)
    requires Keys(live') == Keys(live) - {key} + (if Live(e) then {key} else {})
    requires Live(e) ==> e.shadow in heap' && EntryOf(live', key) == e
    ensures View(live', heap') ==
            if Live(e) then View(live, heap)[key := RegOf(heap', e)] else View(live, heap) - {key}
  {
    var v, v' := View(live, heap), View(live', heap');
    forall k | k in Keys(live) && k != key
      ensures k in v' && v'[k] == v[k]
    {
      assert Stays(live, heap, live', heap', k);
    }
  }

  lemma ViewRewrite(live: set<Entry>, heap: Heap, was: Entry, e: Entry, heap': Heap)
    requires Owned(live, heap) && Distinct(live) && was in live && Swapped(heap, was, e, heap')
    requires Live(e) ==> e.key == was.key
    requires Backed(live, heap) && Backed(Replaced(live, was, e), heap')
    ensures View(Replaced(live, was, e), heap') ==
            if Live(e) then View(live, heap)[was.key := RegOf(heap', e)] else View(live, heap) - {was.key}
  {
    var live' := Replaced(live, was, e);
    KeysRewrite(live, was, e);
    forall k | k in Keys(live) && k != was.key
      ensures Stays(live, heap, live', heap', k)
    {
      OthersStay(live, heap, was, e, heap', k);
    }
    if Live(e) { EntryUnique(live', e); }
    ViewAt(live, heap, live', heap', was.key, e);
  }

  /** Rewriting the live slot p keeps the table sound and rewrites one address
      of the map. */
  lemma Rewrite(t: Table, p: int, e: Entry, heap': Heap)
    requires Inv(t) && 0 <= p < |t.slots| && Live(t.slots[p])
    requires e.key == t.slots[p].key || e.key == TOMBSTONE
    requires Swapped(t.heap, t.slots[p], e, heap')
    ensures Inv(Table(t.slots[p := e], t.occupied, heap'))
    ensures Abs(Table(t.slots[p := e], t.occupied, heap')) ==
            if Live(e) then Abs(t)[t.slots[p].key := RegOf(heap', e)] else Abs(t) - {t.slots[p].key}
  {
    var was := t.slots[p];
    RewriteKeeps(t.slots, p, e);
    KeysDistinct(t.slots);
    assert was in LiveSet(t.slots);
    OwnedRewrite(LiveSet(t.slots), t.heap, was, e, heap');
    ViewRewrite(LiveSet(t.slots), t.heap, was, e, heap');
  }

  /** A table with the same live entries and buffers stands for the same map. */
  lemma SameLive(t: Table, u: Table)
    requires Inv(t) && u.heap == t.heap && LiveSet(u.slots) == LiveSet(t.slots)
    requires u.slots != [] && Sized(u.slots) && u.occupied == Used(u.slots) && 4 * u.occupied <= 3 * |u.slots|
    requires Unique(u.slots) && Reachable(u.slots)
    ensures Inv(u) && Abs(u) == Abs(t)
  {
  }

  /** What a search of the slots says about the map. */
  lemma SearchMeans(t: Table, key: Address)
    requires Inv(t) && key != NULL && key != TOMBSTONE
    ensures key in Abs(t) <==> exists p :: 0 <= p < |t.slots| && t.slots[p].key == key
    ensures forall p :: 0 <= p < |t.slots| && t.slots[p].key == key ==>
              t.slots[p].shadow in t.heap && key in Abs(t) && Abs(t)[key] == RegOf(t.heap, t.slots[p])
  {
    var live := LiveSet(t.slots);
    KeysDistinct(t.slots);
    forall p | 0 <= p < |t.slots| && t.slots[p].key == key
      ensures t.slots[p].shadow in t.heap && key in Abs(t) && Abs(t)[key] == RegOf(t.heap, t.slots[p])
    {
      assert t.slots[p] in live;
      EntryUnique(live, t.slots[p]);
    }
    if key in Abs(t) {
      var p :| 0 <= p < |t.slots| && Live(t.slots[p]) && t.slots[p] == EntryOf(live, key);
    }
  }

  /** A table in use is never full, so every search of it ends. */
  lemma InvSlots(t: Table)
    requires Inv(t) && t.slots != []
    ensures Sized(t.slots) && Reachable(t.slots) && Unique(t.slots) && Used(t.slots) < |t.slots|
  {
  }

  lemma FoundEntry(t: Table, p: int)
    requires Inv(t) && 0 <= p < |t.slots| && Live(t.slots[p])
    ensures OwnsBuffer(t.heap, t.slots[p]) && t.slots[p].key in Abs(t)
    ensures Abs(t)[t.slots[p].key] == RegOf(t.heap, t.slots[p])
  {
    assert t.slots[p] in LiveSet(t.slots);
    SearchMeans(t, t.slots[p].key);
  }

  /** NULL and the tombstone address are never registered. */
  lemma ReservedKeys(t: Table)
    requires Inv(t)
    ensures NULL !in Abs(t) && TOMBSTONE !in Abs(t)
  {
  }

  /** The slot p after DISPOSE, RELEASE, a second NEW at the same address, or a
      leaf set through the buffer. */
  lemma DisposeSlot(t: Table, p: int)
    requires Inv(t) && 0 <= p < |t.slots| && Live(t.slots[p])
    ensures var u := Table(t.slots[p := Entry(TOMBSTONE, 0, 0, false)], t.occupied, t.heap - {t.slots[p].shadow});
            Inv(u) && Abs(u) == Disposed(Abs(t), t.slots[p].key)
  {
    hide Inv, Abs;
    Rewrite(t, p, Entry(TOMBSTONE, 0, 0, false), t.heap - {t.slots[p].shadow});
  }

  lemma ReleaseSlot(t: Table, p: int)
    requires Inv(t) && 0 <= p < |t.slots| && Live(t.slots[p])
    ensures var e := t.slots[p];
            var u := Table(t.slots[p := e.(released := true)], t.occupied, t.heap[e.shadow := Ones(e.n)]);
            Inv(u) && Abs(u) == Released(Abs(t), e.key)
    ensures t.slots[p].released ==> Abs(t) == Released(Abs(t), t.slots[p].key)
  {
    hide Inv, Abs;
    var e := t.slots[p];
    FoundEntry(t, p);
    Rewrite(t, p, e.(released := true), t.heap[e.shadow := Ones(e.n)]);
    if e.released { assert t.heap[e.shadow] == Ones(e.n); }
  }

  lemma RenewSlot(t: Table, p: int, shadow: Handle, n: int)
    requires Inv(t) && 0 <= p < |t.slots| && Live(t.slots[p]) && shadow !in t.heap && n > 0
    ensures var e := Entry(t.slots[p].key, shadow, n, false);
            var u := Table(t.slots[p := e], t.occupied, (t.heap - {t.slots[p].shadow})[shadow := Zeros(n)]);
            Inv(u) && Abs(u) == Registered(Abs(t), e.key, n)
  {
    hide Inv, Abs;
    FoundEntry(t, p);
    Rewrite(t, p, Entry(t.slots[p].key, shadow, n, false), (t.heap - {t.slots[p].shadow})[shadow := Zeros(n)]);
  }

  lemma SetSlotLeaf(t: Table, p: int, i: int)
    requires Inv(t) && 0 <= p < |t.slots| && Live(t.slots[p])
    requires t.slots[p].shadow in t.heap && 0 <= i < |t.heap[t.slots[p].shadow]|
    ensures var e := t.slots[p];
            var u := Table(t.slots, t.occupied, t.heap[e.shadow := t.heap[e.shadow][i := true]]);
            && Inv(u) && e.key in Abs(t) && i < |Abs(t)[e.key].leaves|
            && Abs(u) == Abs(t)[e.key := Abs(t)[e.key].(leaves := Abs(t)[e.key].leaves[i := true])]
  {
    hide Inv, Abs;
    var e := t.slots[p];
    FoundEntry(t, p);
    Rewrite(t, p, e, t.heap[e.shadow := t.heap[e.shadow][i := true]]);
    assert t.slots[p := e] == t.slots;
  }

  // ---- rehashing ----

  /** Live entries of a prefix, one slot at a time. */
  lemma LiveSetSnoc(t: seq<Entry>, i: int)
    requires 0 <= i < |t|
    ensures LiveSet(t[..i + 1]) == LiveSet(t[..i]) + (if Live(t[i]) then {t[i]} else {})
    ensures LiveCount(t[..i + 1]) == LiveCount(t[..i]) + (if Live(t[i]) then 1 else 0)
  {
    var u, v := t[..i], t[..i + 1];
    assert v[..|v| - 1] == u;
    forall x | x in LiveSet(u) + (if Live(t[i]) then {t[i]} else {})
      ensures x in LiveSet(v)
    {
      if Live(t[i]) && x == t[i] {
        assert v[i] == x;
      } else {
        var q :| 0 <= q < |u| && Live(u[q]) && u[q] == x;
        assert v[q] == x;
      }
    }
    forall x | x in LiveSet(v)
      ensures x in LiveSet(u) + (if Live(t[i]) then {t[i]} else {})
    {
      var q :| 0 <= q < |v| && Live(v[q]) && v[q] == x;
      if q < i { assert u[q] == x; }
    }
  }

  /** A slot still to be moved has a key that is not in the part already moved. */
  lemma NotYetMoved(t: seq<Entry>, i: int, f: seq<Entry>)
    requires Unique(t) && 0 <= i < |t| && Live(t[i]) && LiveSet(f) == LiveSet(t[..i])
    ensures forall q :: 0 <= q < |f| ==> f[q].key != t[i].key
  {
    forall q | 0 <= q < |f| && Live(f[q])
      ensures f[q].key != t[i].key
    {
      assert f[q] in LiveSet(t[..i]);
      var p :| 0 <= p < i && Live(t[..i][p]) && t[..i][p] == f[q];
      assert t[p] == f[q];
    }
  }

  lemma VacantSlots(f: seq<Entry>)
    requires forall p :: 0 <= p < |f| ==> f[p] == Vacant
    ensures Used(f) == 0 && Unique(f) && LiveSet(f) == {} && (Sized(f) ==> Reachable(f))
  {
    UsedVacant(f);
  }

  lemma SixtyFour()
    ensures PowerOfTwo(64)
  {
    assert Pow2(3) == 8 && Pow2(6) == 64 by { Pow2Add(3, 3); assert Pow2(1) == 2; }
  }

  lemma Doubled(cap: nat)
    requires PowerOfTwo(cap)
    ensures PowerOfTwo(cap * 2)
  {
    var k: nat :| cap == Pow2(k);
    assert Pow2(k + 1) == cap * 2;
  }

  lemma {:induction false} LiveCountPrefix(t: seq<Entry>, i: int)
    requires 0 <= i <= |t|
    ensures LiveCount(t[..i]) <= LiveCount(t)
    decreases |t|
  {
    if i < |t| {
      LiveCountPrefix(t[..|t| - 1], i);
      assert t[..|t| - 1][..i] == t[..i];
    } else {
      assert t[..i] == t;
    }
  }
}
