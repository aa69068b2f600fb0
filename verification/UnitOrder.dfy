/** The order of the units a compiland reaches through USES: a post-order
    depth-first walk over the spliced interfaces (visit_unit and its caller in
    bootstrap/emit.c). */
module UnitOrder {

  datatype Iface = Iface(unit: string, uses: seq<string>)

  /** The spliced interfaces, no unit twice. */
  type Graph = g: seq<Iface> | Distinct(g) witness []

  ghost predicate Distinct(g: seq<Iface>) {
    forall i, j :: 0 <= i < j < |g| ==> g[i].unit != g[j].unit
  }

  /** The interface of a unit, or -1 when this compiland does not splice it. */
  function Index(g: seq<Iface>, unit: string): (i: int)
    ensures -1 <= i < |g| && (i >= 0 ==> g[i].unit == unit)
    ensures i < 0 ==> forall j :: 0 <= j < |g| ==> g[j].unit != unit
  {
    if g == [] then -1
    else if g[|g| - 1].unit == unit then |g| - 1
    else Index(g[..|g| - 1], unit)
  }

  /** Unit i uses the spliced unit j. */
  ghost predicate Edge(g: Graph, i: int, j: int) {
    && 0 <= i < |g| && 0 <= j < |g|
    && exists k :: 0 <= k < |g[i].uses| && Index(g, g[i].uses[k]) == j
  }

  // ---- paths ----

  ghost predicate Path(g: Graph, p: seq<int>) {
    && p != []
    && (forall k :: 0 <= k < |p| ==> 0 <= p[k] < |g|)
    && forall k :: 0 <= k < |p| - 1 ==> Edge(g, p[k], p[k + 1])
  }

  ghost predicate Reach(g: Graph, i: int, j: int) {
    exists p :: Path(g, p) && p[0] == i && p[|p| - 1] == j
  }

  /** A cycle somewhere below i. */
  ghost predicate Cyclic(g: Graph, i: int) {
    exists p, c :: Path(g, p) && p[0] == i && 0 <= c < |p| - 1 && p[c] == p[|p| - 1]
  }

  lemma ReachSelf(g: Graph, i: int)
    requires 0 <= i < |g|
    ensures Reach(g, i, i)
  {
    assert Path(g, [i]);
  }

  lemma ReachStep(g: Graph, i: int, j: int, k: int)
    requires Edge(g, i, j) && Reach(g, j, k)
    ensures Reach(g, i, k)
  {
    var p :| Path(g, p) && p[0] == j && p[|p| - 1] == k;
    var q := [i] + p;
    assert Path(g, q) && q[0] == i && q[|q| - 1] == k;
  }

  // ---- the walk's invariant ----

  /** The units finished so far: each once, each after every unit it uses. */
  ghost predicate Ordered(g: Graph, o: seq<int>) {
    && (forall k :: 0 <= k < |o| ==> 0 <= o[k] < |g|)
    && (forall k, l :: 0 <= k < l < |o| ==> o[k] != o[l])
    && (forall k, j :: 0 <= k < |o| && Edge(g, o[k], j) ==> j in o[..k])
  }

  /** state: 0 not visited, 1 on the walk, 2 done; walk is the units entered and
      not left, outermost first. */
  ghost predicate Walking(g: Graph, s: seq<int>, o: seq<int>, walk: seq<int>) {
    && |s| == |g| && Ordered(g, o)
    && (forall i :: 0 <= i < |g| ==> 0 <= s[i] <= 2)
    && (forall i :: 0 <= i < |g| ==> (s[i] == 2 <==> i in o))
    && (forall i :: 0 <= i < |g| ==> (s[i] == 1 <==> i in walk))
    && (walk != [] ==> Path(g, walk))
  }

  /** What one visit to unit i may do. */
  ghost predicate Visited(g: Graph, i: int, s: seq<int>, o: seq<int>, s': seq<int>, o': seq<int>) {
    && |s| == |s'| == |g| && o <= o'
    && (forall k :: 0 <= k < |g| ==> (s[k] == 1 <==> s'[k] == 1))
    && (forall k :: 0 <= k < |g| && s[k] == 2 ==> s'[k] == 2)
    && (0 <= i < |g| ==> s'[i] == 2)
    && (forall k :: k in o' && k !in o ==> Reach(g, i, k))
  }

  ghost function White(s: seq<int>): set<int> {
    set k | 0 <= k < |s| && s[k] == 0
  }

  lemma WhiteShrinks(s: seq<int>, s': seq<int>)
    requires |s| == |s'| && forall k :: 0 <= k < |s| && s'[k] == 0 ==> s[k] == 0
    ensures |White(s')| <= |White(s)|
  {
    Smaller(White(s'), White(s));
  }

  lemma WhiteDrops(s: seq<int>, i: int)
    requires 0 <= i < |s| && s[i] == 0
    ensures |White(s[i := 1])| < |White(s)|
  {
    assert White(s[i := 1]) == White(s) - {i};
  }

  lemma Smaller(a: set<int>, b: set<int>)
    requires a <= b
    ensures |a| <= |b|
  {
    assert b == a + (b - a);
  }

  ghost function UpTo(n: nat): (r: set<int>)
    ensures |r| == n && forall i :: i in r <==> 0 <= i < n
  {
    if n == 0 then {} else UpTo(n - 1) + {n - 1}
  }

  ghost function Elements(o: seq<int>): set<int> { set k | 0 <= k < |o| :: o[k] }

  /** Distinct units number at most |g|: the order array never overflows. */
  lemma OrderFits(g: Graph, o: seq<int>)
    requires Ordered(g, o)
    ensures |o| <= |g|
  {
    SeqSize(o);
    Smaller(Elements(o), UpTo(|g|));
  }

  lemma {:induction false} SeqSize(o: seq<int>)
    requires forall k, l :: 0 <= k < l < |o| ==> o[k] != o[l]
    ensures |Elements(o)| == |o|
  {
    if o != [] {
      var n := |o| - 1;
      var p := o[..n];
      SeqSize(p);
      assert Elements(o) == Elements(p) + {o[n]} by {
        forall x | x in Elements(p)
          ensures x in Elements(o)
        {
          var k :| 0 <= k < n && p[k] == x;
          assert o[k] == x;
        }
        assert o[n] in Elements(o);
      }
      assert o[n] !in Elements(p);
    }
  }

  /** Entering an unvisited unit. */
  lemma Enter(g: Graph, s: seq<int>, o: seq<int>, walk: seq<int>, i: int)
    requires Walking(g, s, o, walk) && 0 <= i < |g| && s[i] == 0
    requires walk != [] ==> Edge(g, walk[|walk| - 1], i)
    ensures Walking(g, s[i := 1], o, walk + [i])
  {
    var s', w := s[i := 1], walk + [i];
    assert Path(g, w) by {
      forall k | 0 <= k < |w| - 1
        ensures Edge(g, w[k], w[k + 1])
      {
        if k < |walk| - 1 { assert Edge(g, walk[k], walk[k + 1]); }
      }
    }
    forall k | 0 <= k < |g|
      ensures s'[k] == 1 <==> k in w
    {
      assert k in w <==> k in walk || k == i;
    }
  }

  /** Leaving a unit whose uses are all done. */
  lemma Leave(g: Graph, s: seq<int>, o: seq<int>, walk: seq<int>, i: int)
    requires Walking(g, s, o, walk + [i]) && 0 <= i < |g| && s[i] == 1 && i !in walk
    requires forall j :: Edge(g, i, j) ==> s[j] == 2
    ensures Walking(g, s[i := 2], o + [i], walk)
  {
    var s', o' := s[i := 2], o + [i];
    assert Ordered(g, o') by {
      forall k, j | 0 <= k < |o'| && Edge(g, o'[k], j)
        ensures j in o'[..k]
      {
        if k < |o| { assert o'[..k] == o[..k]; } else { assert o'[..k] == o; }
      }
    }
    assert forall k :: k in walk + [i] <==> k in walk || k == i;
    if walk != [] {
      var w := walk + [i];
      forall k | 0 <= k < |walk| - 1
        ensures Edge(g, walk[k], walk[k + 1])
      {
        assert Edge(g, w[k], w[k + 1]);
      }
      forall k | 0 <= k < |walk|
        ensures 0 <= walk[k] < |g|
      {
        assert w[k] == walk[k];
      }
    }
  }

  /** An edge back onto the walk closes a cycle below its outermost unit. */
  lemma BackEdge(g: Graph, s: seq<int>, o: seq<int>, walk: seq<int>, i: int)
    requires Walking(g, s, o, walk) && 0 <= i < |g| && s[i] == 1 && walk != []
    requires Edge(g, walk[|walk| - 1], i)
    ensures Cyclic(g, walk[0])
  {
    var c :| 0 <= c < |walk| && walk[c] == i;
    var p := walk + [i];
    forall k | 0 <= k < |p| - 1
      ensures Edge(g, p[k], p[k + 1])
    {
      if k < |walk| - 1 { assert Edge(g, walk[k], walk[k + 1]); }
    }
    assert Path(g, p) && p[c] == p[|p| - 1];
  }

  // ---- while the uses of unit i are visited ----

  /** From the moment i was entered (s1, o0): the walk is the same, and what is
      newly done lies below i. */
  ghost predicate Progress(g: Graph, i: int, s1: seq<int>, o0: seq<int>, s: seq<int>, o: seq<int>) {
    && |s1| == |s| == |g| && o0 <= o
    && (forall k :: 0 <= k < |g| ==> 0 <= s1[k] <= 2 && (s1[k] == 1 <==> s[k] == 1))
    && (forall k :: 0 <= k < |g| && s1[k] == 2 ==> s[k] == 2)
    && (forall k :: k in o && k !in o0 ==> Reach(g, i, k))
  }

  ghost predicate DoneUses(g: Graph, i: int, j: int, s: seq<int>) {
    && |s| == |g| && 0 <= i < |g| && 0 <= j <= |g[i].uses|
    && forall k :: 0 <= k < j && Index(g, g[i].uses[k]) >= 0 ==> s[Index(g, g[i].uses[k])] == 2
  }

  lemma StaysPut(g: Graph, i: int, s: seq<int>, o: seq<int>, walk: seq<int>)
    requires Walking(g, s, o, walk) && (0 <= i < |g| ==> s[i] == 2)
    ensures Visited(g, i, s, o, s, o)
  {
  }

  lemma Range(g: Graph, s: seq<int>, o: seq<int>, walk: seq<int>, i: int)
    requires Walking(g, s, o, walk) && 0 <= i < |g|
    ensures 0 <= s[i] <= 2 && (s[i] == 1 ==> walk != [] && i in walk)
  {
  }

  lemma Started(g: Graph, i: int, s1: seq<int>, o0: seq<int>, walk: seq<int>)
    requires Walking(g, s1, o0, walk) && 0 <= i < |g|
    ensures Progress(g, i, s1, o0, s1, o0) && DoneUses(g, i, 0, s1)
  {
  }

  lemma UseEdge(g: Graph, i: int, j: int)
    requires 0 <= i < |g| && 0 <= j < |g[i].uses|
    ensures Index(g, g[i].uses[j]) >= 0 ==> Edge(g, i, Index(g, g[i].uses[j]))
  {
  }

  lemma WhiteBelow(g: Graph, i: int, s1: seq<int>, o0: seq<int>, s: seq<int>, o: seq<int>)
    requires Progress(g, i, s1, o0, s, o)
    ensures |White(s)| <= |White(s1)|
  {
    WhiteShrinks(s1, s);
  }

  /** One more use visited. */
  lemma Absorb(g: Graph, i: int, j: int, s1: seq<int>, o0: seq<int>, s: seq<int>, o: seq<int>, s': seq<int>, o': seq<int>)
    requires 0 <= i < |g| && 0 <= j < |g[i].uses|
    requires Progress(g, i, s1, o0, s, o) && DoneUses(g, i, j, s)
    requires Visited(g, Index(g, g[i].uses[j]), s, o, s', o')
    ensures Progress(g, i, s1, o0, s', o') && DoneUses(g, i, j + 1, s')
  {
    hide Reach, Edge;
    var u := Index(g, g[i].uses[j]);
    UseEdge(g, i, j);
    forall k | k in o' && k !in o0
      ensures Reach(g, i, k)
    {
      if k !in o {
        ReachInRange(g, u, k);
        ReachStep(g, i, u, k);
      }
    }
  }

  lemma ReachInRange(g: Graph, i: int, k: int)
    requires Reach(g, i, k)
    ensures 0 <= i < |g| && 0 <= k < |g|
  {
  }

  /** All uses visited: unit i is done and takes its place in the order. */
  lemma Finish(g: Graph, i: int, s0: seq<int>, o0: seq<int>, s: seq<int>, o: seq<int>, walk: seq<int>)
    requires 0 <= i < |g| && Walking(g, s0, o0, walk) && s0[i] == 0 && Walking(g, s, o, walk + [i])
    requires Progress(g, i, s0[i := 1], o0, s, o) && DoneUses(g, i, |g[i].uses|, s)
    ensures Walking(g, s[i := 2], o + [i], walk) && |o| < |g|
    ensures Visited(g, i, s0, o0, s[i := 2], o + [i])
  {
    assert s0[i := 1][i] == 1;
    assert i !in walk;
    assert forall j :: Edge(g, i, j) ==> s[j] == 2;
    Leave(g, s, o, walk, i);
    OrderFits(g, o + [i]);
    ReachSelf(g, i);
    FinishVisited(g, i, s0, o0, s, o);
  }

  lemma FinishVisited(g: Graph, i: int, s0: seq<int>, o0: seq<int>, s: seq<int>, o: seq<int>)
    requires 0 <= i < |g| == |s0| && s0[i] == 0 && Progress(g, i, s0[i := 1], o0, s, o) && Reach(g, i, i)
    ensures Visited(g, i, s0, o0, s[i := 2], o + [i])
  {
    hide Reach;
    var s1 := s0[i := 1];
    forall k | 0 <= k < |g| && k != i
      ensures s1[k] == s0[k]
    {
    }
  }

  // ---- what a finished order says ----

  /** Positions fall along every path that starts in the order. */
  lemma {:induction false} PathFalls(g: Graph, o: seq<int>, p: seq<int>, a: int) returns (b: int)
    requires Ordered(g, o) && Path(g, p) && 0 <= a < |o| && o[a] == p[0]
    ensures 0 <= b <= a - (|p| - 1) && o[b] == p[|p| - 1]
    decreases |p|
  {
    if |p| == 1 {
      b := a;
    } else {
      assert Edge(g, p[0], p[1]);
      assert p[1] in o[..a];
      var c :| 0 <= c < a && o[..a][c] == p[1];
      var q := p[1..];
      assert Path(g, q) by {
        forall k | 0 <= k < |q| - 1
          ensures Edge(g, q[k], q[k + 1])
        {
          assert Edge(g, p[k + 1], p[k + 2]);
        }
      }
      b := PathFalls(g, o, q, c);
    }
  }

  lemma OrderedCloses(g: Graph, o: seq<int>, r: int, k: int)
    requires Ordered(g, o) && r in o && Reach(g, r, k)
    ensures k in o
  {
    var p :| Path(g, p) && p[0] == r && p[|p| - 1] == k;
    var a :| 0 <= a < |o| && o[a] == r;
    var b := PathFalls(g, o, p, a);
  }

  /** Nothing below a unit of the order lies on a cycle. */
  lemma OrderedAcyclic(g: Graph, o: seq<int>, r: int)
    requires Ordered(g, o) && r in o
    ensures !Cyclic(g, r)
  {
    hide Ordered;
    forall p, c | Path(g, p) && p[0] == r && 0 <= c < |p| - 1
      ensures p[c] != p[|p| - 1]
    {
      NoRepeat(g, o, p, c);
    }
  }

  lemma NoRepeat(g: Graph, o: seq<int>, p: seq<int>, c: int)
    requires Ordered(g, o) && Path(g, p) && p[0] in o && 0 <= c < |p| - 1
    ensures p[c] != p[|p| - 1]
  {
    hide Path;
    var a :| 0 <= a < |o| && o[a] == p[0];
    SubPath(g, p, c);
    var b := PathFalls(g, o, p[..c + 1], a);
    var d := PathFalls(g, o, p[c..], b);
  }

  lemma SubPath(g: Graph, p: seq<int>, c: int)
    requires Path(g, p) && 0 <= c < |p|
    ensures Path(g, p[..c + 1]) && Path(g, p[c..])
  {
    var q, t := p[..c + 1], p[c..];
    forall k | 0 <= k < |q| - 1
      ensures Edge(g, q[k], q[k + 1])
    {
      assert Edge(g, p[k], p[k + 1]);
    }
    forall k | 0 <= k < |t| - 1
      ensures Edge(g, t[k], t[k + 1])
    {
      assert Edge(g, p[k + c], p[k + c + 1]);
    }
  }

  /** The spliced units a compiland names in its own USES. */
  ghost predicate Root(g: Graph, uses: seq<string>, n: int, r: int) {
    exists k :: 0 <= k < n <= |uses| && Index(g, uses[k]) == r >= 0
  }

  /** o is exactly the units reachable from the first n uses. */
  ghost predicate Covers(g: Graph, uses: seq<string>, n: int, o: seq<int>) {
    && (forall r :: Root(g, uses, n, r) ==> r in o)
    && (forall k :: k in o ==> exists r :: Root(g, uses, n, r) && Reach(g, r, k))
  }

  lemma CoversMore(g: Graph, uses: seq<string>, n: int, s: seq<int>, o: seq<int>, s': seq<int>, o': seq<int>)
    requires 0 <= n < |uses| && Covers(g, uses, n, o) && Visited(g, Index(g, uses[n]), s, o, s', o')
    requires Walking(g, s', o', [])
    ensures Covers(g, uses, n + 1, o')
  {
    hide Reach;
    var u := Index(g, uses[n]);
    forall r | Root(g, uses, n + 1, r)
      ensures r in o'
    {
      if r != u {
        var k :| 0 <= k < n + 1 && Index(g, uses[k]) == r;
        assert Root(g, uses, n, r);
      }
    }
    forall k | k in o'
      ensures exists r :: Root(g, uses, n + 1, r) && Reach(g, r, k)
    {
      if k in o {
        var r :| Root(g, uses, n, r) && Reach(g, r, k);
        var m :| 0 <= m < n && Index(g, uses[m]) == r;
        assert Root(g, uses, n + 1, r);
      } else {
        ReachInRange(g, u, k);
        assert Root(g, uses, n + 1, u);
      }
    }
  }

  /** The order is the set of reachable units, and none of them is on a cycle. */
  lemma Complete(g: Graph, uses: seq<string>, o: seq<int>)
    requires Ordered(g, o) && Covers(g, uses, |uses|, o)
    ensures forall k :: k in o <==> exists r :: Root(g, uses, |uses|, r) && Reach(g, r, k)
    ensures forall r :: Root(g, uses, |uses|, r) ==> !Cyclic(g, r)
  {
    hide Reach, Cyclic, Ordered, Root;
    forall r, k | Root(g, uses, |uses|, r) && Reach(g, r, k)
      ensures k in o
    {
      OrderedCloses(g, o, r, k);
    }
    forall r | Root(g, uses, |uses|, r)
      ensures !Cyclic(g, r)
    {
      OrderedAcyclic(g, o, r);
    }
  }

  class Walk {
    const g: Graph
    const state: array<int>
    const order: array<int>
    var norder: nat

    constructor (g: Graph)
      ensures this.g == g && norder == 0 && fresh(state) && fresh(order)
      ensures Ready([])
    {
      this.g := g;
      state := new int[|g|](i => 0);
      order := new int[|g| + 1](i => 0);
      norder := 0;
      new;
      assert order[..0] == [];
    }

    ghost function Order(): seq<int>
      requires norder <= order.Length
      reads this, order
    {
      order[..norder]
    }

    ghost predicate Ready(walk: seq<int>)
      reads this, state, order
    {
      && state != order && state.Length == |g| && order.Length == |g| + 1 && norder <= |g|
      && Walking(g, state[..], Order(), walk)
    }

    /** visit_unit; walk is the chain of units being visited around it. */
    method Visit(unit: string, ghost walk: seq<int>) returns (ok: bool)
      requires Ready(walk)
      requires walk != [] && Index(g, unit) >= 0 ==> Edge(g, walk[|walk| - 1], Index(g, unit))
      modifies this, state, order
      ensures ok ==> Ready(walk) && Visited(g, Index(g, unit), old(state[..]), old(Order()), state[..], Order())
      ensures !ok ==> Index(g, unit) >= 0 && Cyclic(g, if walk == [] then Index(g, unit) else walk[0])
      decreases |White(state[..])|, 1
    {
      hide Walking, Visited, Cyclic, Edge;
      var i := Find(unit);
      if i < 0 {
        StaysPut(g, i, state[..], Order(), walk);
        return true;
      }
      Range(g, state[..], Order(), walk, i);
      if state[i] == 2 {
        StaysPut(g, i, state[..], Order(), walk);
        return true;
      }
      if state[i] == 1 {
        BackEdge(g, state[..], Order(), walk, i);
        return false;
      }
      ok := Expand(i, walk);
    }

    /** The first visit to unit i. */
    method Expand(i: int, ghost walk: seq<int>) returns (ok: bool)
      requires Ready(walk) && 0 <= i < |g| && state[i] == 0
      requires walk != [] ==> Edge(g, walk[|walk| - 1], i)
      modifies this, state, order
      ensures ok ==> Ready(walk) && Visited(g, i, old(state[..]), old(Order()), state[..], Order())
      ensures !ok ==> Cyclic(g, if walk == [] then i else walk[0])
      decreases |White(state[..])|, 0
    {
      hide Walking, Visited, Cyclic, Edge, White, Progress, DoneUses;
      ghost var s0, o0, inner := state[..], Order(), walk + [i];
      Enter(g, s0, o0, walk, i);
      WhiteDrops(s0, i);
      state[i] := 1;
      ghost var s1 := state[..];
      assert s1 == s0[i := 1];
      Started(g, i, s1, o0, inner);
      var j := 0;
      while j < |g[i].uses|
        invariant 0 <= j <= |g[i].uses| && Ready(inner)
        invariant Progress(g, i, s1, o0, state[..], Order()) && DoneUses(g, i, j, state[..])
      {
        ghost var s, o := state[..], Order();
        UseEdge(g, i, j);
        WhiteBelow(g, i, s1, o0, s, o);
        ok := Visit(g[i].uses[j], inner);
        if !ok { return; }
        Absorb(g, i, j, s1, o0, s, o, state[..], Order());
        j := j + 1;
      }
      ghost var s, o := state[..], Order();
      Finish(g, i, s0, o0, s, o, walk);
      state[i] := 2;
      assert state[..] == s[i := 2];
      order[norder] := i;
      norder := norder + 1;
      assert Order() == o + [i];
      ok := true;
    }

    /** The walk from the compiland's own USES: it succeeds exactly when no
        cycle can be reached, and then lists exactly the reachable units, each
        once and after the units it uses. */
    method Run(uses: seq<string>) returns (ok: bool)
      requires Ready([]) && norder == 0
      modifies this, state, order
      ensures ok <==> forall r :: Root(g, uses, |uses|, r) ==> !Cyclic(g, r)
      ensures ok ==> norder <= |g| && Ordered(g, Order())
      ensures ok ==> forall k :: k in Order() <==> exists r :: Root(g, uses, |uses|, r) && Reach(g, r, k)
    {
      hide Visited, Cyclic, Edge, White, Reach, Covers, Root;
      var j := 0;
      NothingYet(g, uses);
      while j < |uses|
        invariant 0 <= j <= |uses| && Ready([]) && Covers(g, uses, j, Order())
      {
        ghost var s, o := state[..], Order();
        ok := Visit(uses[j], []);
        RootAt(g, uses, j);
        if !ok { return; }
        CoversMore(g, uses, j, s, o, state[..], Order());
        j := j + 1;
      }
      Complete(g, uses, Order());
      ok := true;
    }

    method Find(unit: string) returns (i: int)
      ensures i == Index(g, unit)
    {
      var k := 0;
      while k < |g|
        invariant 0 <= k <= |g|
        invariant forall j :: 0 <= j < k ==> g[j].unit != unit
      {
        if g[k].unit == unit {
          return k;
        }
        k := k + 1;
      }
      i := -1;
    }
  }

  lemma NothingYet(g: Graph, uses: seq<string>)
    ensures Covers(g, uses, 0, [])
  {
  }

  lemma RootAt(g: Graph, uses: seq<string>, j: int)
    requires 0 <= j < |uses|
    ensures Index(g, uses[j]) >= 0 ==> Root(g, uses, |uses|, Index(g, uses[j]))
  {
  }
}
