/** Type expressions resolved to types (resolve_type and the interning of
    bootstrap/sem.c). A type enters the table when it is finished, so it always
    stands after the types it holds by value, which is what lets struct
    definitions be written in dependency order. */
module TypeTable {
  import opened StructOrder

  datatype TypeExpr =
    | Named(name: string)
    | LStringOf(cap: int)
    | ArrayOf(lo: int, hi: int, elem: TypeExpr)
    | RecordOf(groups: Groups)
    | PointerTo(name: string)
    | EnumOf(names: seq<string>)

  /** Fields that share a type are declared together. */
  datatype Groups = NoGroups | Group(names: seq<string>, te: TypeExpr, rest: Groups)

  function Names(g: Groups): seq<string> { if g.NoGroups? then [] else g.names + Names(g.rest) }

  /** The expressions resolve_type accepts where the names of scope are types. */
  predicate Acceptable(scope: map<string, nat>, te: TypeExpr) {
    match te
    case Named(x) => x in scope
    case LStringOf(cap) => 1 <= cap <= 255
    case ArrayOf(lo, hi, e) => Acceptable(scope, e) && lo <= hi
    case RecordOf(g) => AllAcceptable(scope, g) && NoRepeat(Names(g))
    case PointerTo(_) => true
    case EnumOf(_) => true
  }

  predicate AllAcceptable(scope: map<string, nat>, g: Groups) {
    g.Group? ==> Acceptable(scope, g.te) && AllAcceptable(scope, g.rest)
  }

  /** Type t of the table is what te denotes. A pointer to a name declared later
      in the section, or not at all yet, waits for the end of the section. */
  ghost predicate Denotes(types: seq<Type>, scope: map<string, nat>, later: set<string>, te: TypeExpr, t: nat) {
    && t < |types|
    && match te
       case Named(x) => x in scope && t == scope[x]
       case LStringOf(cap) => cap >= 0 && types[t] == LString(cap)
       case ArrayOf(lo, hi, e) => types[t].Array? && types[t].lo == lo && types[t].hi == hi && Denotes(types, scope, later, e, types[t].elem)
       case RecordOf(g) => types[t].Record? && DenoteFields(types, scope, later, g, types[t].fields, types[t].names)
       case PointerTo(x) => types[t] == if x in scope && x !in later then Pointer(scope[x]) else Unresolved
       case EnumOf(_) => types[t] == Scalar(Enumeration)
  }

  /** One field for each name of a group, all of the group's type. */
  ghost predicate DenoteFields(types: seq<Type>, scope: map<string, nat>, later: set<string>, g: Groups, fields: seq<nat>, names: seq<string>) {
    match g
    case NoGroups => fields == [] && names == []
    case Group(ns, te, rest) =>
      var n := |ns|;
      && n <= |fields| && n <= |names| && names[..n] == ns && DenoteFields(types, scope, later, rest, fields[n..], names[n..])
      && exists u :: Denotes(types, scope, later, te, u) && forall i :: 0 <= i < n ==> fields[i] == u
  }

  lemma {:induction false} NamesDenoted(types: seq<Type>, scope: map<string, nat>, later: set<string>, g: Groups, fields: seq<nat>, names: seq<string>)
    requires DenoteFields(types, scope, later, g, fields, names)
    ensures names == Names(g) && |names| == |fields|
    decreases g
  {
    if g.Group? {
      NamesDenoted(types, scope, later, g.rest, fields[|g.names|..], names[|g.names|..]);
      assert names == names[..|g.names|] + names[|g.names|..];
    }
  }

  ghost predicate Targets(types: seq<Type>) {
    forall t :: 0 <= t < |types| && types[t].Pointer? ==> types[t].target < |types|
  }

  lemma {:induction false} Stable(types: seq<Type>, more: seq<Type>, scope: map<string, nat>, later: set<string>, te: TypeExpr, t: nat)
    requires types <= more && Denotes(types, scope, later, te, t)
    ensures Denotes(more, scope, later, te, t)
    decreases te, 0
  {
    match te
    case ArrayOf(_, _, e) => Stable(types, more, scope, later, e, types[t].elem);
    case RecordOf(g) => FieldsStable(types, more, scope, later, g, types[t].fields, types[t].names);
    case _ =>
  }

  lemma {:induction false} FieldsStable(types: seq<Type>, more: seq<Type>, scope: map<string, nat>, later: set<string>, g: Groups, fields: seq<nat>, names: seq<string>)
    requires types <= more && DenoteFields(types, scope, later, g, fields, names)
    ensures DenoteFields(more, scope, later, g, fields, names)
    decreases g, 0
  {
    if g.Group? {
      FieldsStable(types, more, scope, later, g.rest, fields[|g.names|..], names[|g.names|..]);
      var u :| Denotes(types, scope, later, g.te, u) && forall i :: 0 <= i < |g.names| ==> fields[i] == u;
      Stable(types, more, scope, later, g.te, u);
    }
  }

  /** Each name and its place, the last one counting. */
  function Numbered(base: seq<(string, Kind)>): (scope: map<string, nat>)
    ensures forall x :: x in scope ==> scope[x] < |base|
  {
    if base == [] then map[] else Numbered(base[..|base| - 1])[base[|base| - 1].0 := |base| - 1]
  }

  datatype Declaration = Declaration(name: string, te: TypeExpr)

  datatype Pending = Pending(t: nat, name: string)

  ghost predicate Waits(pending: seq<Pending>, t: nat) { exists k :: 0 <= k < |pending| && pending[k].t == t }

  /** Of the pointers that waited, the first i are bound and the others not. */
  ghost predicate Bound(was: seq<Type>, types: seq<Type>, scope: map<string, nat>, pending: seq<Pending>, i: nat) {
    && i <= |pending| && |types| == |was|
    && (forall k :: 0 <= k < |pending| ==> pending[k].t < |types|)
    && (forall k :: 0 <= k < i ==> pending[k].name in scope && types[pending[k].t] == Pointer(scope[pending[k].name]))
    && (forall k :: i <= k < |pending| ==> types[pending[k].t].Unresolved?)
    && (forall t :: 0 <= t < |types| && !Waits(pending, t) ==> types[t] == was[t])
  }

  class Resolver {
    var types: seq<Type>
    var scope: map<string, nat>
    /** Names the current section declares here or later. */
    var later: set<string>
    var pending: seq<Pending>
    /** Names of the innermost scope, and which of them an interface declared. */
    var inner: set<string>
    var shared: set<string>

    ghost predicate Valid()
      reads this
    {
      && Layered(types) && Interned(types) && FieldsNamed(types) && Targets(types)
      && (forall x :: x in scope ==> scope[x] < |types|) && inner <= scope.Keys
      && (forall k :: 0 <= k < |pending| ==> pending[k].t < |types| && types[pending[k].t].Unresolved?)
      && (forall t :: 0 <= t < |types| && types[t].Unresolved? ==> Waits(pending, t))
      && (forall j, k :: 0 <= j < k < |pending| ==> pending[j].t != pending[k].t)
    }

    /** The scalar types, given by their names and kinds, before any
        declaration. */
    constructor (base: seq<(string, Kind)>)
      ensures Valid() && pending == [] && later == {} && scope == Numbered(base)
      ensures |types| == |base| && forall i :: 0 <= i < |base| ==> types[i] == Scalar(base[i].1)
    {
      types := seq(|base|, i requires 0 <= i < |base| => Scalar(base[i].1));
      scope := Numbered(base);
      later, pending, inner, shared := {}, [], {}, {};
    }

    /** Only new types at the end of the table. */
    twostate predicate Extended()
      reads this
    {
      && Valid() && old(types) <= types && scope == old(scope) && later == old(later) && old(pending) <= pending
      && inner == old(inner) && shared == old(shared)
    }

    /** A new type whose parts are in the table already. */
    method Add(x: Type) returns (t: nat)
      requires Valid() && !x.Unresolved? && (x.Pointer? ==> x.target < |types|)
      requires forall i :: 0 <= i < |Parts(x)| ==> Parts(x)[i] < |types|
      requires x.LString? || x.Array? ==> x !in types
      requires x.Record? ==> |x.names| == |x.fields| && NoRepeat(x.names)
      modifies this
      ensures Extended() && pending == old(pending) && t == |old(types)| && types == old(types) + [x]
    {
      t := |types|;
      types := types + [x];
      assert forall u :: 0 <= u < t ==> types[u] == old(types)[u];
      assert forall k :: 0 <= k < t ==> types[k] in old(types);
    }

    /** lstring_of and array_of: the one type of that shape. */
    method Intern(x: Type) returns (t: nat)
      requires Valid() && (x.LString? || (x.Array? && x.elem < |types|))
      modifies this
      ensures Extended() && pending == old(pending) && t < |types| && types[t] == x
    {
      t := 0;
      while t < |types|
        invariant 0 <= t <= |types| && x !in types[..t]
        modifies {}
      {
        if types[t] == x { return; }
        assert types[..t + 1] == types[..t] + [types[t]];
        t := t + 1;
      }
      assert types[..t] == types;
      t := Add(x);
    }

    /** A pointer whose target is bound at the end of the section. */
    method Wait(name: string) returns (t: nat)
      requires Valid()
      modifies this
      ensures Extended() && t == |old(types)| && types == old(types) + [Unresolved] && pending == old(pending) + [Pending(t, name)]
    {
      t := |types|;
      types := types + [Unresolved];
      pending := pending + [Pending(t, name)];
      WaitValid(old(types), old(pending), name);
    }

    /** resolve_type: succeeds exactly on acceptable expressions, and leaves
        every type after the types it holds by value. */
    method Resolve(te: TypeExpr) returns (ok: bool, t: nat)
      requires Valid()
      modifies this
      ensures Extended() && ok == Acceptable(scope, te)
      ensures ok ==> Denotes(types, scope, later, te, t)
      decreases te, 1
    {
      ok, t := true, 0;
      match te {
        case Named(x) => if x in scope { t := scope[x]; } else { ok := false; }
        case LStringOf(cap) =>
          if cap < 1 || cap > 255 { return false, 0; }
          t := Intern(LString(cap));
        case ArrayOf(lo, hi, e) =>
          var elem;
          ok, elem := Resolve(e);
          if !ok || hi < lo { return false, 0; }
          ghost var before := types;
          t := Intern(Array(elem, lo, hi));
          Stable(before, types, scope, later, e, elem);
        case RecordOf(g) =>
          var fields, names;
          ok, fields, names := ResolveFields(g);
          if !ok { return; }
          NamesDenoted(types, scope, later, g, fields, names);
          ok := Distinct(names);
          if !ok { return; }
          ghost var before := types;
          t := Add(Record(fields, names));
          FieldsStable(before, types, scope, later, g, fields, names);
        case PointerTo(x) =>
          if x in scope && x !in later { t := Add(Pointer(scope[x])); } else { t := Wait(x); }
        case EnumOf(_) => t := Add(Scalar(Enumeration));
      }
    }

    method ResolveFields(g: Groups) returns (ok: bool, fields: seq<nat>, names: seq<string>)
      requires Valid()
      modifies this
      ensures Extended() && ok == AllAcceptable(scope, g)
      ensures ok ==> DenoteFields(types, scope, later, g, fields, names) && forall i :: 0 <= i < |fields| ==> fields[i] < |types|
      decreases g, 0
    {
      if g.NoGroups? { return true, [], []; }
      var u, rest, more;
      ok, u := Resolve(g.te);
      if !ok { return false, [], []; }
      ghost var before := types;
      ok, rest, more := ResolveFields(g.rest);
      if !ok { return false, [], []; }
      Stable(before, types, scope, later, g.te, u);
      fields, names := seq(|g.names|, i => u) + rest, g.names + more;
      assert fields[|g.names|..] == rest && names[|g.names|..] == more && names[..|g.names|] == g.names;
    }

    method Distinct(names: seq<string>) returns (ok: bool)
      ensures ok == NoRepeat(names)
    {
      var j := 0;
      while j < |names|
        invariant 0 <= j <= |names| && NoRepeat(names[..j])
      {
        var i := 0;
        while i < j
          invariant 0 <= i <= j && forall k :: 0 <= k < i ==> names[k] != names[j]
        {
          if names[i] == names[j] { return false; }
          i := i + 1;
        }
        j := j + 1;
      }
      assert names[..j] == names;
      ok := true;
    }

    /** resolve_pending_pointers: the pointers that waited get their targets,
        and nothing else changes. */
    method Bind() returns (ok: bool)
      requires Valid()
      modifies this
      ensures ok <==> forall k :: 0 <= k < |old(pending)| ==> old(pending)[k].name in scope
      ensures ok ==> Valid() && pending == [] && scope == old(scope) && |types| == |old(types)|
      ensures inner == old(inner) && shared == old(shared) && later == old(later)
      ensures ok ==> forall t :: 0 <= t < |types| ==> !types[t].Unresolved? && (!old(types)[t].Unresolved? ==> types[t] == old(types)[t])
      ensures ok ==> forall k :: 0 <= k < |old(pending)| ==> types[old(pending)[k].t] == Pointer(scope[old(pending)[k].name])
    {
      var i := 0;
      while i < |pending|
        invariant pending == old(pending) && scope == old(scope) && inner == old(inner) && shared == old(shared) && later == old(later)
        invariant Layered(types) && Interned(types) && FieldsNamed(types) && Targets(types) && Bound(old(types), types, scope, pending, i)
      {
        var p := pending[i];
        if p.name !in scope { return false; }
        BindNext(old(types), types, scope, pending, i);
        types := types[p.t := Pointer(scope[p.name])];
        i := i + 1;
      }
      BoundAll(old(types), types, scope, pending);
      pending := [];
      ok := true;
    }

    /** One declaration. A name of the innermost scope may be declared again only
        as the repetition of an interface's. */
    method Declare(d: Declaration, names: set<string>, inInterface: bool) returns (ok: bool)
      requires Valid()
      modifies this
      ensures Valid() && |old(types)| <= |types|
      ensures ok <==> if d.name in old(inner) then d.name in old(shared) && !inInterface else Acceptable(old(scope), d.te)
      ensures ok ==> inner == old(inner) + {d.name} && shared == (if inInterface then old(shared) + {d.name} else old(shared))
      ensures ok && d.name in old(inner) ==> scope == old(scope)
      ensures ok && d.name !in old(inner) ==> d.name in scope && scope == old(scope)[d.name := scope[d.name]]
      ensures ok && d.name !in old(inner) ==> Denotes(types, old(scope), names, d.te, scope[d.name])
    {
      if d.name in inner { return d.name in shared && !inInterface; }
      later := names;
      var t;
      ok, t := Resolve(d.te);
      if !ok { return; }
      scope := scope[d.name := t];
      inner := inner + {d.name};
      if inInterface { shared := shared + {d.name}; }
    }

    /** type_section: each declaration is resolved among those before it, with
        pointers free to name later ones, and at the end every pointer has its
        target. */
    method Section(items: seq<Declaration>, inInterface: bool) returns (ok: bool)
      requires Valid() && pending == []
      modifies this
      ensures ok ==> Valid() && pending == [] && later == {} && |old(types)| <= |types| && old(inner) <= inner
      ensures ok ==> forall t :: 0 <= t < |types| ==> !types[t].Unresolved?
      ensures ok ==> forall i :: 0 <= i < |items| ==> items[i].name in inner
      ensures ok ==> forall x :: x in old(inner) ==> x in old(scope) && x in scope && scope[x] == old(scope)[x]
    {
      hide Denotes, Acceptable;
      var i := 0;
      while i < |items|
        invariant 0 <= i <= |items| && Valid() && |old(types)| <= |types| && old(inner) <= inner
        invariant forall k :: 0 <= k < i ==> items[k].name in inner
        invariant forall x :: x in old(inner) ==> x in old(scope) && x in scope && scope[x] == old(scope)[x]
      {
        ok := Declare(items[i], set k | i <= k < |items| :: items[k].name, inInterface);
        if !ok { return; }
        i := i + 1;
      }
      later := {};
      ok := Bind();
    }

    /** Any number of sections. */
    method Sections(all: seq<seq<Declaration>>, inInterface: bool) returns (ok: bool)
      requires Valid() && pending == []
      modifies this
      ensures ok ==> Valid() && pending == [] && old(inner) <= inner
      ensures ok ==> forall i, j :: 0 <= i < |all| && 0 <= j < |all[i]| ==> all[i][j].name in inner
    {
      ok := true;
      var i := 0;
      while i < |all|
        invariant 0 <= i <= |all| && Valid() && pending == [] && old(inner) <= inner
        invariant forall k, j :: 0 <= k < i && 0 <= j < |all[k]| ==> all[k][j].name in inner
      {
        ok := Section(all[i], inInterface);
        if !ok { return; }
        i := i + 1;
      }
    }

    /** After any sections, every request for a struct succeeds where pointer
        chains end: the C is accepted and the requested aggregates complete. */
    method Structs(ts: seq<nat>) returns (w: Writer)
      requires Valid() && pending == [] && ChainsEnd(types) && forall i :: 0 <= i < |ts| ==> ts[i] < |types|
      ensures w.types == types && !Compile(w.buf).Rejected?
      ensures forall i :: 0 <= i < |ts| && Aggregate(types[ts[i]]) ==> TagOf(types, ts[i]) in Compile(w.buf).complete
    {
      hide Compile, Layered, Interned, FieldsNamed, Targets, ChainsFall, WellFounded, Completable, Aggregate;
      ghost var depth: seq<nat> :| |depth| == |types| && ChainsFall(types, depth);
      NoneWaits(types, pending);
      ReadyForStructs(types, depth);
      w := new Writer(types, depth);
      var ok := w.Requests(ts);
    }
  }

  lemma NoneWaits(types: seq<Type>, pending: seq<Pending>)
    requires pending == [] && forall t :: 0 <= t < |types| && types[t].Unresolved? ==> Waits(pending, t)
    ensures forall t :: 0 <= t < |types| ==> !types[t].Unresolved?
  {
  }

  lemma BindNext(was: seq<Type>, types: seq<Type>, scope: map<string, nat>, pending: seq<Pending>, i: nat)
    requires Layered(types) && Interned(types) && FieldsNamed(types) && Targets(types) && Bound(was, types, scope, pending, i) && i < |pending|
    requires pending[i].name in scope && scope[pending[i].name] < |types|
    requires forall j, k :: 0 <= j < k < |pending| ==> pending[j].t != pending[k].t
    ensures var after := types[pending[i].t := Pointer(scope[pending[i].name])];
            Layered(after) && Interned(after) && FieldsNamed(after) && Targets(after) && Bound(was, after, scope, pending, i + 1)
  {
    assert Waits(pending, pending[i].t);
  }

  lemma BoundAll(was: seq<Type>, types: seq<Type>, scope: map<string, nat>, pending: seq<Pending>)
    requires Bound(was, types, scope, pending, |pending|)
    requires forall t :: 0 <= t < |was| && was[t].Unresolved? ==> Waits(pending, t)
    requires forall k :: 0 <= k < |pending| ==> pending[k].t < |was| && was[pending[k].t].Unresolved?
    ensures forall t :: 0 <= t < |types| ==> !types[t].Unresolved? && (!was[t].Unresolved? ==> types[t] == was[t])
  {
    forall t | 0 <= t < |types|
      ensures !types[t].Unresolved? && (!was[t].Unresolved? ==> types[t] == was[t])
    {
      if Waits(pending, t) { var k :| 0 <= k < |pending| && pending[k].t == t; }
    }
  }

  lemma WaitValid(types: seq<Type>, pending: seq<Pending>, name: string)
    requires Layered(types) && Interned(types) && FieldsNamed(types)
    ensures Layered(types + [Unresolved]) && Interned(types + [Unresolved]) && FieldsNamed(types + [Unresolved])
    ensures forall t :: Waits(pending, t) || t == |types| ==> Waits(pending + [Pending(|types|, name)], t)
  {
    var more := pending + [Pending(|types|, name)];
    forall t | Waits(pending, t)
      ensures Waits(more, t)
    {
      var k :| 0 <= k < |pending| && pending[k].t == t;
      assert more[k].t == t;
    }
    assert more[|pending|].t == |types|;
  }

  ghost predicate ChainsFall(types: seq<Type>, depth: seq<nat>)
    requires |depth| == |types|
  {
    forall t :: 0 <= t < |types| && types[t].Pointer? ==>
      types[t].target < |types| && (types[types[t].target].Pointer? ==> depth[types[t].target] < depth[t])
  }

  /** No pointer only names pointers. */
  ghost predicate ChainsEnd(types: seq<Type>) {
    exists depth: seq<nat> :: |depth| == |types| && ChainsFall(types, depth)
  }

  /** After the section the table meets all that struct definitions need but
      the order of pointer chains. */
  lemma ReadyForStructs(types: seq<Type>, depth: seq<nat>)
    requires Layered(types) && Interned(types) && FieldsNamed(types) && |depth| == |types| && ChainsFall(types, depth)
    ensures WellFounded(types, depth)
    ensures (forall t :: 0 <= t < |types| ==> !types[t].Unresolved?) ==> forall t :: 0 <= t < |types| ==> Completable(types, depth, t)
  {
    if forall t :: 0 <= t < |types| ==> !types[t].Unresolved? {
      forall t | 0 <= t < |types|
        ensures Completable(types, depth, t)
      {
        AllComplete(types, depth, t);
      }
    }
  }

  lemma {:induction false} AllComplete(types: seq<Type>, depth: seq<nat>, t: nat)
    requires WellFounded(types, depth) && t < |types| && forall u :: 0 <= u < |types| ==> !types[u].Unresolved?
    ensures Completable(types, depth, t)
    decreases t
  {
    AllSpell(types, depth, t);
    forall i | 0 <= i < |Parts(types[t])|
      ensures Completable(types, depth, Parts(types[t])[i])
    {
      AllComplete(types, depth, Parts(types[t])[i]);
    }
  }

  lemma {:induction false} AllSpell(types: seq<Type>, depth: seq<nat>, t: nat)
    requires WellFounded(types, depth) && t < |types| && forall u :: 0 <= u < |types| ==> !types[u].Unresolved?
    ensures Spellable(types, depth, t)
    decreases depth[t]
  {
    if types[t].Pointer? && types[types[t].target].Pointer? { AllSpell(types, depth, types[t].target); }
  }
}
