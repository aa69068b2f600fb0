/** C struct definitions written on demand and in dependency order (ctype_ref
    in bootstrap/sem.c). */
module StructOrder {

  datatype Kind = Int16 | Int32 | Int64 | Real | Boolean | Char | AdrMem | Enumeration | Void

  /** A resolved type; components are indices into the table of types. */
  datatype Type =
    | Scalar(kind: Kind)
    | Pointer(target: nat)
    | Unresolved
    | LString(cap: nat)
    | Array(elem: nat, lo: int, hi: int)
    | Record(fields: seq<nat>, names: seq<string>)

  predicate Aggregate(t: Type) { t.LString? || t.Array? || t.Record? }

  /** Components stored inside a value of the type. */
  function Parts(t: Type): seq<nat> {
    match t case Array(e, _, _) => [e] case Record(fs, _) => fs case _ => []
  }

  /** The C type of a scalar. */
  function CName(k: Kind): string {
    match k
    case Int16 => "int16_t" case Int32 => "int32_t" case Int64 => "int64_t"
    case Real => "double" case Boolean => "uint8_t" case Char => "uint8_t"
    case AdrMem => "uint8_t *" case Enumeration => "int32_t" case Void => "void"
  }

  /** A struct tag: an LSTRING is named by its capacity, pl_<cap>, an array or a
      record by its number, pa_<id> or pr_<id>. */
  datatype StructTag = Pl(cap: nat) | Pa(id: nat) | Pr(id: nat)

  /** tag_of. */
  function TagOf(types: seq<Type>, t: nat): StructTag
    requires t < |types| && Aggregate(types[t])
  {
    match types[t] case LString(cap) => Pl(cap) case Array(_, _, _) => Pa(t) case Record(_, _) => Pr(t)
  }

  /** The C spelling of a type: a base name, a struct tag, or a pointer. */
  datatype Spelling = Name(s: string) | Tag(t: StructTag) | PtrTo(to: Spelling)

  /** The struct tag a spelling mentions, if any. */
  function Mentioned(s: Spelling): set<StructTag> {
    match s case Name(_) => {} case Tag(t) => {t} case PtrTo(q) => Mentioned(q)
  }

  /** What a struct holds: an array of bytes, an array of elements, or fields. */
  datatype Body = Bytes(count: int) | Elements(elem: Spelling, count: int) | Fields(fields: seq<Spelling>, names: seq<string>)

  function MembersOf(b: Body): seq<Spelling> {
    match b case Bytes(_) => [] case Elements(e, _) => [e] case Fields(fs, _) => fs
  }

  datatype Item = Declare(t: StructTag) | Define(t: StructTag, body: Body)

  // ---- what a C compiler demands of the items ----

  datatype Scope = Rejected | Scope(declared: set<StructTag>, complete: set<StructTag>)

  /** A member's tag must be declared, and its struct complete unless only
      pointed to. */
  predicate MemberOk(m: Spelling, declared: set<StructTag>, complete: set<StructTag>) {
    Mentioned(m) <= declared && (m.Tag? ==> m.t in complete)
  }

  predicate NoRepeat(names: seq<string>) { forall i, j :: 0 <= i < j < |names| ==> names[i] != names[j] }

  /** Members of one struct have different names. */
  predicate NamesOk(b: Body) { b.Fields? ==> |b.names| == |b.fields| && NoRepeat(b.names) }

  function Admit(sc: Scope, x: Item): Scope {
    if sc.Rejected? then Rejected
    else match x
      case Declare(t) => if t in sc.declared then Rejected else sc.(declared := sc.declared + {t})
      case Define(t, b) =>
        var ms := MembersOf(b);
        if t in sc.declared && t !in sc.complete && NamesOk(b) && forall i :: 0 <= i < |ms| ==> MemberOk(ms[i], sc.declared, sc.complete)
        then sc.(complete := sc.complete + {t})
        else Rejected
  }

  /** The tags declared once and the structs defined once, in an acceptable
      order; Rejected otherwise. */
  function Compile(items: seq<Item>): Scope {
    if items == [] then Scope({}, {}) else Admit(Compile(items[..|items| - 1]), items[|items| - 1])
  }

  lemma CompileSnoc(items: seq<Item>, x: Item)
    ensures Compile(items + [x]) == Admit(Compile(items), x)
  {
    assert (items + [x])[..|items|] == items;
  }

  /** What acceptance means: in every accepted prefix each definition comes after
      its own declaration, after the declaration of every tag it mentions and
      after the definition of every struct it holds by value, and is the only
      one. */
  lemma {:induction false} Accepted(items: seq<Item>, p: nat)
    requires !Compile(items).Rejected? && p < |items| && items[p].Define?
    ensures Declare(items[p].t) in items[..p]
    ensures forall i, t :: 0 <= i < |MembersOf(items[p].body)| && t in Mentioned(MembersOf(items[p].body)[i]) ==> Declare(t) in items[..p]
    ensures forall i :: 0 <= i < |MembersOf(items[p].body)| && MembersOf(items[p].body)[i].Tag? ==>
              exists q :: 0 <= q < p && items[q].Define? && items[q].t == MembersOf(items[p].body)[i].t
    ensures forall q :: 0 <= q < |items| && q != p && items[q].Define? ==> items[q].t != items[p].t
    ensures items[p].body.Fields? ==> NoRepeat(items[p].body.names)
  {
    hide Compile, MemberOk, MembersOf, Mentioned, NamesOk;
    AtDefinition(items, p);
    CompileMeans(items[..p]);
    var sc, ms := Compile(items[..p]), MembersOf(items[p].body);
    forall i | 0 <= i < |ms|
      ensures forall t :: t in Mentioned(ms[i]) ==> Declare(t) in items[..p]
      ensures ms[i].Tag? ==> exists q :: 0 <= q < p && items[q].Define? && items[q].t == ms[i].t
    {
      MemberMeans(items[..p], ms[i]);
      if ms[i].Tag? { EarlierDefinition(items, p, ms[i].t); }
    }
    forall q | 0 <= q < |items| && q != p && items[q].Define?
      ensures items[q].t != items[p].t
    {
      DefinedOnce(items, if q < p then q else p, if q < p then p else q);
    }
    FieldNames(items[p].body);
  }

  lemma FieldNames(b: Body)
    requires NamesOk(b)
    ensures b.Fields? ==> NoRepeat(b.names)
  {
  }

  /** What the scope check has found true at an accepted definition. */
  lemma AtDefinition(items: seq<Item>, p: nat)
    requires !Compile(items).Rejected? && p < |items| && items[p].Define?
    ensures var sc := Compile(items[..p]);
            && !sc.Rejected? && items[p].t in sc.declared && NamesOk(items[p].body)
            && AllOk(MembersOf(items[p].body), sc.declared, sc.complete)
  {
    hide Compile, MemberOk;
    PrefixCompiles(items, p);
    PrefixCompiles(items, p + 1);
    CompileSnoc(items[..p], items[p]);
    assert items[..p] + [items[p]] == items[..p + 1];
  }

  lemma MemberMeans(items: seq<Item>, m: Spelling)
    requires !Compile(items).Rejected? && MemberOk(m, Compile(items).declared, Compile(items).complete)
    ensures forall t :: t in Mentioned(m) ==> Declare(t) in items
    ensures m.Tag? ==> DefinedIn(items, m.t)
  {
    hide Compile;
    CompileMeans(items);
  }

  lemma EarlierDefinition(items: seq<Item>, p: nat, t: StructTag)
    requires p <= |items| && DefinedIn(items[..p], t)
    ensures exists q :: 0 <= q < p && items[q].Define? && items[q].t == t
  {
    var q :| 0 <= q < p && items[..p][q].Define? && items[..p][q].t == t;
    assert items[q] == items[..p][q];
  }

  lemma {:induction false} PrefixCompiles(items: seq<Item>, p: nat)
    requires !Compile(items).Rejected? && p <= |items|
    ensures !Compile(items[..p]).Rejected?
  {
    if p < |items| {
      var init := items[..|items| - 1];
      PrefixCompiles(init, p);
      assert init[..p] == items[..p];
    } else {
      assert items[..p] == items;
    }
  }

  ghost predicate DefinedIn(items: seq<Item>, t: StructTag) {
    exists q :: 0 <= q < |items| && items[q].Define? && items[q].t == t
  }

  lemma {:induction false} CompileMeans(items: seq<Item>)
    requires !Compile(items).Rejected?
    ensures forall t :: t in Compile(items).declared <==> Declare(t) in items
    ensures forall t :: t in Compile(items).complete <==> DefinedIn(items, t)
  {
    if items != [] {
      var init, x := items[..|items| - 1], items[|items| - 1];
      CompileMeans(init);
      assert items == init + [x];
      forall t
        ensures DefinedIn(items, t) <==> DefinedIn(init, t) || (x.Define? && x.t == t)
      {
        if DefinedIn(init, t) {
          var q :| 0 <= q < |init| && init[q].Define? && init[q].t == t;
          assert items[q] == init[q];
        }
        if x.Define? && x.t == t { assert items[|items| - 1] == x; }
        if DefinedIn(items, t) {
          var q :| 0 <= q < |items| && items[q].Define? && items[q].t == t;
          if q < |init| { assert init[q] == items[q]; }
        }
      }
    }
  }

  lemma DefinedOnce(items: seq<Item>, p: nat, q: nat)
    requires !Compile(items).Rejected? && p < q < |items| && items[p].Define? && items[q].Define?
    ensures items[p].t != items[q].t
  {
    PrefixCompiles(items, q);
    PrefixCompiles(items, q + 1);
    CompileSnoc(items[..q], items[q]);
    assert items[..q] + [items[q]] == items[..q + 1];
    CompileMeans(items[..q]);
    assert items[..q][p] == items[p];
    assert DefinedIn(items[..q], items[p].t);
  }

  // ---- the types it is asked about ----

  /** Every type stands after the types it holds by value, as the resolver
      leaves them: no type holds itself. */
  ghost predicate Layered(types: seq<Type>) {
    forall t, i :: 0 <= t < |types| && 0 <= i < |Parts(types[t])| ==> Parts(types[t])[i] < t
  }

  /** LSTRING and array types are shared: no two entries are the same. */
  ghost predicate Interned(types: seq<Type>) {
    forall t, u :: 0 <= t < u < |types| && (types[t].LString? || types[t].Array?) ==> types[t] != types[u]
  }

  /** Different aggregates have different tags. */
  lemma TagsDiffer(types: seq<Type>, t: nat, u: nat)
    requires Interned(types) && t < |types| && u < |types| && t != u && Aggregate(types[t]) && Aggregate(types[u])
    ensures TagOf(types, t) != TagOf(types, u)
  {
  }

  /** Every field of a record has a name of its own. */
  ghost predicate FieldsNamed(types: seq<Type>) {
    forall t :: 0 <= t < |types| && types[t].Record? ==> |types[t].names| == |types[t].fields| && NoRepeat(types[t].names)
  }

  /** Besides, no pointer only names pointers: depth falls from a pointer to a
      pointer it points to. */
  ghost predicate WellFounded(types: seq<Type>, depth: seq<nat>) {
    && |depth| == |types| && Layered(types) && Interned(types) && FieldsNamed(types)
    && (forall t :: 0 <= t < |types| && types[t].Pointer? ==>
          types[t].target < |types| && (types[types[t].target].Pointer? ==> depth[types[t].target] < depth[t]))
  }

  // ---- what the C says ----

  /** The C type c stores values of a scalar type of kind k: signed integers of
      its width for integers and enumerations, a byte for BOOLEAN and CHAR. */
  predicate Holds(c: string, k: Kind) {
    || (c == "int16_t" && k.Int16?)
    || (c == "int32_t" && (k.Int32? || k.Enumeration?))
    || (c == "int64_t" && k.Int64?)
    || (c == "double" && k.Real?)
    || (c == "uint8_t" && (k.Boolean? || k.Char?))
    || (c == "uint8_t *" && k.AdrMem?)
    || (c == "void" && k.Void?)
  }

  /** The C type s is that of type t of the table: a scalar by its name, an
      aggregate by its tag, a pointer by what it points to. */
  predicate Reads(types: seq<Type>, s: Spelling, t: nat)
    decreases s
  {
    t < |types| &&
    match s
    case Name(c) => types[t].Scalar? && Holds(c, types[t].kind)
    case Tag(Pl(cap)) => types[t] == LString(cap)
    case Tag(Pa(id)) => t == id && types[t].Array?
    case Tag(Pr(id)) => t == id && types[t].Record?
    case PtrTo(q) => types[t].Pointer? && Reads(types, q, types[t].target)
  }

  /** The struct x defines has the layout of type t: a length byte and cap
      characters, the elements from lo to hi, or the fields in order. */
  predicate LaysOut(types: seq<Type>, x: Item, t: nat) {
    x.Define? && Reads(types, Tag(x.t), t) &&
    match types[t]
    case LString(cap) => x.body == Bytes(cap + 1)
    case Array(elem, lo, hi) => x.body.Elements? && x.body.count == hi - lo + 1 && Reads(types, x.body.elem, elem)
    case Record(fs, ns) => x.body.Fields? && x.body.names == ns && |x.body.fields| == |fs| && forall i :: 0 <= i < |fs| ==> Reads(types, x.body.fields[i], fs[i])
    case _ => false
  }

  /** Every definition lays out a type of the table. */
  ghost predicate Faithful(types: seq<Type>, x: Item) {
    x.Define? ==> exists t :: LaysOut(types, x, t)
  }

  /** Types of the same shape: the same aggregate, scalars C stores alike, or
      pointers to such. */
  predicate Alike(types: seq<Type>, t: nat, u: nat, s: Spelling)
    decreases s
  {
    t < |types| && u < |types| &&
    match s
    case Name(c) => types[t].Scalar? && types[u].Scalar? && Holds(c, types[t].kind) && Holds(c, types[u].kind)
    case Tag(_) => t == u
    case PtrTo(q) => types[t].Pointer? && types[u].Pointer? && Alike(types, types[t].target, types[u].target, q)
  }

  /** A spelling tells types apart: two types it can be read as are alike. */
  lemma {:induction false} ReadsOnce(types: seq<Type>, s: Spelling, t: nat, u: nat)
    requires Interned(types) && Reads(types, s, t) && Reads(types, s, u)
    ensures Alike(types, t, u, s)
    decreases s
  {
    match s
    case PtrTo(q) => ReadsOnce(types, q, types[t].target, types[u].target);
    case _ =>
  }

  lemma TagReads(types: seq<Type>, t: nat)
    requires t < |types| && Aggregate(types[t])
    ensures Reads(types, Tag(TagOf(types, t)), t)
  {
  }

  /** The tags of a set of types. */
  ghost function Tags(types: seq<Type>, ts: set<nat>): set<StructTag>
    requires forall t :: t in ts ==> t < |types| && Aggregate(types[t])
  {
    set t | t in ts :: TagOf(types, t)
  }

  /** Sets of types and sets of tags correspond. */
  lemma TagsOf(types: seq<Type>, ts: set<nat>, t: nat)
    requires Interned(types) && (forall u :: u in ts ==> u < |types| && Aggregate(types[u])) && t < |types| && Aggregate(types[t])
    ensures TagOf(types, t) in Tags(types, ts) <==> t in ts
    ensures Tags(types, ts + {t}) == Tags(types, ts) + {TagOf(types, t)}
  {
    if u :| u in ts && TagOf(types, u) == TagOf(types, t) {
      if u != t { TagsDiffer(types, u, t); }
    }
  }

  /** The chain of pointers from t ends in a resolved type. */
  ghost predicate Spellable(types: seq<Type>, depth: seq<nat>, t: nat)
    requires WellFounded(types, depth) && t < |types|
    decreases depth[t]
  {
    match types[t]
    case Unresolved => false
    case Pointer(u) => if types[u].Pointer? then Spellable(types, depth, u) else !types[u].Unresolved?
    case _ => true
  }

  /** And so do those of everything t holds by value. */
  ghost predicate Completable(types: seq<Type>, depth: seq<nat>, t: nat)
    requires WellFounded(types, depth) && t < |types|
    decreases t
  {
    Spellable(types, depth, t) && forall i :: 0 <= i < |Parts(types[t])| ==> Completable(types, depth, Parts(types[t])[i])
  }

  class Writer {
    const types: seq<Type>
    ghost const depth: seq<nat>
    var declared: set<nat>
    var emitted: set<nat>
    var buf: seq<Item>
    /** Structs whose definition has begun but is not yet written. */
    ghost var open: set<nat>

    constructor (types: seq<Type>, ghost depth: seq<nat>)
      requires WellFounded(types, depth)
      ensures this.types == types && this.depth == depth
      ensures Valid() && open == {} && buf == []
    {
      this.types, this.depth := types, depth;
      declared, emitted, buf, open := {}, {}, [], {};
    }

    ghost predicate Valid()
      reads this
    {
      && WellFounded(types, depth)
      && open <= emitted
      && (forall t :: t in declared ==> t < |types| && Aggregate(types[t]))
      && (forall t :: t in emitted ==> t in declared)
      && Compile(buf) == Scope(Tags(types, declared), Tags(types, emitted - open))
      && (forall t :: t in emitted - open ==> t < |types| && Completable(types, depth, t))
      && (forall k :: 0 <= k < |buf| ==> Faithful(types, buf[k]))
    }

    /** Every definition under way is of a type above t. */
    ghost predicate Above(t: nat)
      reads this
    {
      forall u :: u in open ==> u > t
    }

    /** What a request leaves behind. */
    twostate predicate Grown()
      reads this
    {
      && Valid() && open == old(open)
      && old(declared) <= declared && old(emitted) <= emitted && old(buf) <= buf
    }

    /** The C spelling of t; its struct is declared, and defined when
        needComplete, before this returns. It fails exactly when it meets an
        unresolved pointer. */
    method CtypeRef(t: nat, needComplete: bool) returns (ok: bool, s: Spelling)
      requires Valid() && t < |types| && (needComplete ==> Above(t))
      modifies this
      ensures ok ==> Grown() && Mentioned(s) <= Tags(types, declared)
      ensures ok ==> Reads(types, s, t)
      ensures ok <==> if needComplete then Completable(types, depth, t) else Spellable(types, depth, t)
      ensures ok && needComplete && Aggregate(types[t]) ==> t in emitted - open
      decreases if needComplete then t + 1 else 0, depth[t], 2
    {
      hide Compile;
      ok, s := true, Name("void");
      match types[t] {
        case Scalar(k) => s := Name(CName(k));
        case Unresolved => ok := false;
        case Pointer(target) =>
          PointerOk(types, depth, t);
          var q;
          ok, q := CtypeTarget(target, t);
          s := PtrTo(q);
        case _ =>
          Announce(t);
          s := Tag(TagOf(types, t));
          if needComplete && t !in emitted { ok := Complete(t); }
      }
    }

    /** ctype_ref of a pointer's target, which need not be complete. */
    method CtypeTarget(target: nat, ghost t: nat) returns (ok: bool, s: Spelling)
      requires Valid() && t < |types| && types[t] == Pointer(target) && target < |types|
      requires types[target].Pointer? ==> depth[target] < depth[t]
      modifies this
      ensures ok ==> Grown() && Mentioned(s) <= Tags(types, declared) && Reads(types, s, target)
      ensures ok <==> Spellable(types, depth, t)
      decreases 0, depth[t], 0
    {
      if types[target].Pointer? {
        ok, s := CtypeRef(target, false);
      } else if Aggregate(types[target]) {
        Announce(target);
        ok, s := true, Tag(TagOf(types, target));
      } else {
        ok := !types[target].Unresolved?;
        s := Name(if types[target].Scalar? then CName(types[target].kind) else "void");
      }
    }

    /** The forward declaration of a tag, once. */
    method Announce(t: nat)
      requires Valid() && t < |types| && Aggregate(types[t])
      modifies this
      ensures Grown() && t in declared && emitted == old(emitted) && TagOf(types, t) in Tags(types, declared)
    {
      TagsOf(types, declared, t);
      if t !in declared {
        CompileSnoc(buf, Declare(TagOf(types, t)));
        declared := declared + {t};
        buf := buf + [Declare(TagOf(types, t))];
      }
    }

    /** The definition of a struct, after everything it holds by value. */
    method Complete(t: nat) returns (ok: bool)
      requires Valid() && t < |types| && Aggregate(types[t]) && Above(t) && t in declared && t !in emitted
      modifies this
      ensures ok ==> Grown() && t in emitted - open
      ensures ok <==> Completable(types, depth, t)
      decreases t + 1, depth[t], 1
    {
      hide Compile, Tags;
      ghost var outer := open;
      assert t !in open;
      emitted := emitted + {t};
      open := open + {t};
      assert emitted - open == old(emitted) - outer;
      var members;
      ok, members := Members(t);
      if !ok { return; }
      var body := match types[t]
        case LString(cap) => Bytes(cap + 1)
        case Array(_, lo, hi) => Elements(members[0], hi - lo + 1)
        case Record(_, names) => Fields(members, names)
        case _ => Bytes(0);
      var def := Define(TagOf(types, t), body);
      TagReads(types, t);
      assert LaysOut(types, def, t);
      Defined(types, buf, declared, emitted - open, t, body);
      assert emitted - outer == (emitted - open) + {t};
      buf := buf + [def];
      open := outer;
    }

    /** The members of a struct under way, each complete before the next. */
    method Members(t: nat) returns (ok: bool, members: seq<Spelling>)
      requires Valid() && t in open && t < |types| && Aggregate(types[t]) && forall u :: u in open ==> u >= t
      modifies this
      ensures ok ==> Grown() && |members| == |Parts(types[t])| && AllOk(members, Tags(types, declared), Tags(types, emitted - open))
      ensures ok ==> forall k :: 0 <= k < |members| ==> Reads(types, members[k], Parts(types[t])[k])
      ensures ok <==> Completable(types, depth, t)
      decreases t + 1, depth[t], 0
    {
      hide Compile, Tags, Reads, MemberOk;
      var parts := Parts(types[t]);
      members := [];
      var i := 0;
      while i < |parts|
        invariant 0 <= i <= |parts| && parts == Parts(types[t]) && Grown()
        invariant |members| == i && AllOk(members, Tags(types, declared), Tags(types, emitted - open))
        invariant forall k :: 0 <= k < i ==> Reads(types, members[k], parts[k]) && Completable(types, depth, parts[k])
      {
        PartOk(types, depth, t, i);
        ghost var d, e := declared, emitted - open;
        var s;
        ok, s := CtypeRef(parts[i], true);
        if !ok { return; }
        StillOk(members, types, d, e, declared, emitted - open);
        MemberNow(types, s, parts[i], declared, emitted - open);
        members := members + [s];
        i := i + 1;
      }
      ok := true;
    }

    /** Any sequence of requests for complete types leaves C that declares each
        tag once and defines each struct at most once, after everything it
        needs. */
    method Requests(ts: seq<nat>) returns (ok: bool)
      requires Valid() && open == {} && forall i :: 0 <= i < |ts| ==> ts[i] < |types|
      modifies this
      ensures ok ==> Valid() && open == {} && !Compile(buf).Rejected?
      ensures ok ==> forall k :: 0 <= k < |buf| ==> Faithful(types, buf[k])
      ensures ok <==> forall i :: 0 <= i < |ts| ==> Completable(types, depth, ts[i])
      ensures ok ==> forall i :: 0 <= i < |ts| && Aggregate(types[ts[i]]) ==> TagOf(types, ts[i]) in Compile(buf).complete
    {
      ok := true;
      var i := 0;
      while i < |ts|
        invariant 0 <= i <= |ts| && Valid() && open == {}
        invariant forall k :: 0 <= k < i ==> Completable(types, depth, ts[k])
        invariant forall k :: 0 <= k < i && Aggregate(types[ts[k]]) ==> ts[k] in emitted
      {
        var s;
        ok, s := CtypeRef(ts[i], true);
        if !ok { return; }
        i := i + 1;
      }
    }
  }

  lemma PartOk(types: seq<Type>, depth: seq<nat>, t: nat, i: nat)
    requires WellFounded(types, depth) && t < |types| && i < |Parts(types[t])|
    ensures Parts(types[t])[i] < t
  {
  }

  lemma PointerOk(types: seq<Type>, depth: seq<nat>, t: nat)
    requires WellFounded(types, depth) && t < |types| && types[t].Pointer?
    ensures types[t].target < |types|
    ensures types[types[t].target].Pointer? ==> depth[types[t].target] < depth[t]
  {
  }

  predicate AllOk(ms: seq<Spelling>, declared: set<StructTag>, complete: set<StructTag>) {
    forall k :: 0 <= k < |ms| ==> MemberOk(ms[k], declared, complete)
  }

  /** Members stay acceptable as more is declared and defined. */
  lemma StillOk(ms: seq<Spelling>, types: seq<Type>, d: set<nat>, e: set<nat>, d': set<nat>, e': set<nat>)
    requires d <= d' && e <= e' && forall t :: t in d' || t in e' ==> t < |types| && Aggregate(types[t])
    requires AllOk(ms, Tags(types, d), Tags(types, e))
    ensures AllOk(ms, Tags(types, d'), Tags(types, e'))
  {
    assert Tags(types, d) <= Tags(types, d') && Tags(types, e) <= Tags(types, e');
  }

  /** A part just asked for complete is an acceptable member. */
  lemma MemberNow(types: seq<Type>, s: Spelling, u: nat, d: set<nat>, e: set<nat>)
    requires Interned(types) && u < |types| && forall t :: t in d || t in e ==> t < |types| && Aggregate(types[t])
    requires Reads(types, s, u) && Mentioned(s) <= Tags(types, d) && (Aggregate(types[u]) ==> u in e)
    ensures MemberOk(s, Tags(types, d), Tags(types, e))
  {
    if s.Tag? { TagsOf(types, e, u); }
  }

  /** The definition of t is accepted where t is declared and its members are. */
  lemma Defined(types: seq<Type>, buf: seq<Item>, d: set<nat>, e: set<nat>, t: nat, body: Body)
    requires Interned(types) && (forall u :: u in d || u in e ==> u < |types| && Aggregate(types[u]))
    requires t in d && t !in e && Compile(buf) == Scope(Tags(types, d), Tags(types, e)) && NamesOk(body) && AllOk(MembersOf(body), Tags(types, d), Tags(types, e))
    ensures Compile(buf + [Define(TagOf(types, t), body)]) == Scope(Tags(types, d), Tags(types, e + {t}))
  {
    hide Compile, Tags, MemberOk;
    CompileSnoc(buf, Define(TagOf(types, t), body));
    TagsOf(types, d, t);
    TagsOf(types, e, t);
  }
}
