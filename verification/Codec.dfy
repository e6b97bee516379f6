/** The log encoding of a record: a versioned printer and parser. */
module Codec {
  import opened Facts
  import opened Routes

  /** A C string's bytes, without the terminator. */
  type Str = seq<Byte>

  const U16 := 0x1_0000
  const U32 := 0x1_0000_0000
  const U64 := 0x1_0000_0000_0000_0000
  const NULL_LEN := 0xFFFF_FFFF
  const MAX_PREMISES := 8
  const MEM_SEMANTIC := 2
  const ONE_BITS := 0x3F80_0000        // 1.0 as IEEE-754 bits
  const MINUS_ZERO_BITS := 0x8000_0000 // -0.0, which is not below 0

  datatype Relationship = Relationship(from: nat, to: nat, kind: Option<Str>)

  datatype FactObject = FactId(id: nat) | FactText(text: Str)

  datatype Fact = Fact(subject: nat, pred: Str, obj: FactObject)

  /** Floats are kept as their bits. */
  datatype Record = Record(
    id: nat, memory: nat, created: nat, updated: nat, importance: nat, confidence: nat,
    deleted: bool, expires: nat, agent: Option<Str>, tags: seq<Str>,
    vecs: nat, dim: nat, floats: seq<nat>, rels: seq<Relationship>,
    fact: Option<Fact>, routes: seq<Route<()>>, data: seq<Byte>)

  // ----- which records -------------------------------------------------------------

  predicate StrOk(s: Str) { |s| < NULL_LEN && 0 !in s }

  predicate StrFits(s: Option<Str>) { s.Some? ==> StrOk(s.value) }

  /** A finite weight in [0, 1]. */
  predicate WeightOk(bits: nat) { bits <= ONE_BITS || bits == MINUS_ZERO_BITS }

  predicate RelOk(r: Relationship) { r.from < U64 && r.to < U64 && StrFits(r.kind) }

  predicate FloatOk(x: nat) { x < U32 }

  predicate IdOk(x: nat) { x < U64 }

  predicate FactOk(f: Fact)
  {
    && f.subject < U64 && StrOk(f.pred) && f.pred != []
    && if f.obj.FactId? then f.obj.id < U64 else StrOk(f.obj.text)
  }

  predicate RouteOk(r: Route<()>)
  {
    && r.depth < U16 && 1 <= |r.premises| <= MAX_PREMISES
    && forall i :: 0 <= i < |r.premises| ==> IdOk(r.premises[i])
  }

  predicate HeadOk(r: Record)
  {
    && r.id < U64 && r.memory <= MEM_SEMANTIC && r.created < U64 && r.updated < U64
    && WeightOk(r.importance) && WeightOk(r.confidence) && r.expires < U64
  }

  predicate VecsOk(vecs: nat, dim: nat, floats: seq<nat>)
  {
    && vecs < U32 && dim < U32 && (vecs == 0 <==> dim == 0) && |floats| == vecs * dim
    && forall i :: 0 <= i < |floats| ==> FloatOk(floats[i])
  }

  predicate RoutesOk(rs: seq<Route<()>>)
  {
    Sorted(rs) && |rs| <= MAX_ROUTES && forall i :: 0 <= i < |rs| ==> RouteOk(rs[i])
  }

  /** What the rest of the server keeps of every record it stores. */
  predicate WellFormed(r: Record)
  {
    && HeadOk(r) && StrFits(r.agent)
    && |r.tags| < U16 && (forall i :: 0 <= i < |r.tags| ==> StrOk(r.tags[i]))
    && VecsOk(r.vecs, r.dim, r.floats)
    && |r.rels| < U16 && (forall i :: 0 <= i < |r.rels| ==> RelOk(r.rels[i]))
    && (r.fact.Some? ==> FactOk(r.fact.value))
    && RoutesOk(r.routes) && (r.routes != [] ==> r.fact.Some?)
    && |r.data| < U32
  }

  /** What the encoder does not refuse. */
  predicate Encodable(r: Record)
  {
    && (r.routes != [] ==> r.fact.Some?)
    && |r.tags| < U16 && r.vecs < U32 && r.dim < U32 && |r.rels| < U16 && |r.routes| <= MAX_ROUTES
    && forall i :: 0 <= i < |r.routes| ==> 1 <= |r.routes[i].premises| <= MAX_PREMISES
  }

  // ----- little-endian integers ------------------------------------------------------

  /** The low `k` bytes of `v`, least first. */
  function Le(k: nat, v: nat): (s: seq<Byte>)
    ensures |s| == k
  {
    if k == 0 then [] else [v % 256] + Le(k - 1, v / 256)
  }

  function FromLe(s: seq<Byte>): nat
  {
    if s == [] then 0 else s[0] + 256 * FromLe(s[1..])
  }

  function Bound(k: nat): nat { if k == 0 then 1 else 256 * Bound(k - 1) }

  lemma {:induction false} LeRound(k: nat, v: nat)
    requires v < Bound(k)
    ensures FromLe(Le(k, v)) == v
  {
    if k > 0 {
      LeRound(k - 1, v / 256);
      assert Le(k, v)[1..] == Le(k - 1, v / 256);
    }
  }

  lemma {:induction false} FromLeBound(s: seq<Byte>)
    ensures FromLe(s) < Bound(|s|)
  {
    if s != [] {
      FromLeBound(s[1..]);
    }
  }

  lemma Bounds()
    ensures Bound(1) == 256 && Bound(2) == U16 && Bound(4) == U32 && Bound(8) == U64
  {
  }

  // ----- the format: what each part parses to, and prints as ----------------------------

  datatype Parsed<+T> = Fail | Got(value: T, rest: seq<Byte>) {
    predicate IsFailure() { Fail? }
    function PropagateFailure<U>(): Parsed<U>
      requires Fail?
    {
      Parsed<U>.Fail
    }
    function Extract(): (T, seq<Byte>)
      requires Got?
    {
      (value, rest)
    }
  }

  function GetInt(k: nat, s: seq<Byte>): Parsed<nat>
  {
    if k <= |s| then Got(FromLe(s[..k]), s[k..]) else Fail
  }

  lemma IntRound(k: nat, v: nat, t: seq<Byte>)
    requires v < Bound(k)
    ensures GetInt(k, Le(k, v) + t) == Got(v, t)
  {
  }

  lemma IntBound(k: nat, s: seq<Byte>)
    ensures GetInt(k, s).Got? ==> GetInt(k, s).value < Bound(k)
  {
    if k <= |s| {
      FromLeBound(s[..k]);
    }
  }

  /** A string's bytes up to its first NUL. */
  function Cut(s: seq<Byte>): (r: Str)
    ensures 0 !in r && |r| <= |s|
    ensures 0 !in s ==> r == s
  {
    if s == [] || s[0] == 0 then [] else [s[0]] + Cut(s[1..])
  }

  function PrintStr(s: Option<Str>): seq<Byte>
  {
    if s.None? then Le(4, NULL_LEN) else Le(4, |s.value|) + s.value
  }

  function GetStr(s: seq<Byte>): Parsed<Option<Str>>
  {
    var (n, r) :- GetInt(4, s);
    if n == NULL_LEN then Got(None, r)
    else if n > |r| then Fail
    else Got(Some(Cut(r[..n])), r[n..])
  }

  lemma StrRound(x: Option<Str>, t: seq<Byte>)
    requires StrFits(x)
    ensures GetStr(PrintStr(x) + t) == Got(x, t)
  {
    Bounds();
    if x.None? {
      IntRound(4, NULL_LEN, t);
    } else {
      assert PrintStr(x) + t == Le(4, |x.value|) + (x.value + t);
      IntRound(4, |x.value|, x.value + t);
      assert (x.value + t)[..|x.value|] == x.value && (x.value + t)[|x.value|..] == t;
    }
  }

  lemma StrFitsRead(s: seq<Byte>)
    ensures GetStr(s).Got? ==> StrFits(GetStr(s).value)
  {
    Bounds();
    IntBound(4, s);
  }

  /** `n` items in a row. */
  function GetN<T>(get: seq<Byte> -> Parsed<T>, n: nat, s: seq<Byte>): Parsed<seq<T>>
  {
    if n == 0 then Got([], s)
    else
      var (x, r) :- get(s);
      var (xs, r') :- GetN(get, n - 1, r);
      Got([x] + xs, r')
  }

  function PrintAll<T>(show: T -> seq<Byte>, xs: seq<T>): seq<Byte>
  {
    if xs == [] then [] else show(xs[0]) + PrintAll(show, xs[1..])
  }

  lemma {:induction false} AllRound<T(!new)>(get: seq<Byte> -> Parsed<T>, show: T -> seq<Byte>, xs: seq<T>,
                                      t: seq<Byte>)
    requires forall i, u :: 0 <= i < |xs| ==> get(show(xs[i]) + u) == Got(xs[i], u)
    ensures GetN(get, |xs|, PrintAll(show, xs) + t) == Got(xs, t)
  {
    if xs == [] {
      assert PrintAll(show, xs) + t == t;
    } else {
      var u := PrintAll(show, xs[1..]) + t;
      assert PrintAll(show, xs) + t == show(xs[0]) + u;
      assert get(show(xs[0]) + u) == Got(xs[0], u);
      forall i, v | 0 <= i < |xs[1..]| ensures get(show(xs[1..][i]) + v) == Got(xs[1..][i], v) {
        assert xs[1..][i] == xs[i + 1];
      }
      AllRound(get, show, xs[1..], t);
      assert [xs[0]] + xs[1..] == xs;
    }
  }

  lemma {:induction false} AllRead<T(!new)>(get: seq<Byte> -> Parsed<T>, ok: T -> bool, n: nat, s: seq<Byte>)
    requires forall u :: get(u).Got? ==> ok(get(u).value)
    ensures var p := GetN(get, n, s); p.Got? ==> |p.value| == n && forall i :: 0 <= i < n ==> ok(p.value[i])
  {
    if n > 0 && get(s).Got? {
      AllRead(get, ok, n - 1, get(s).rest);
    }
  }

  lemma {:induction false} PrintAllMore<T>(show: T -> seq<Byte>, xs: seq<T>, x: T)
    ensures PrintAll(show, xs + [x]) == PrintAll(show, xs) + show(x)
  {
    if xs == [] {
      assert [x][1..] == [];
      assert xs + [x] == [x];
      assert show(x) + [] == show(x);
    } else {
      assert (xs + [x])[1..] == xs[1..] + [x];
      PrintAllMore(show, xs[1..], x);
    }
  }

  /** Reading on after the first `i` items. */
  function Prepend<T>(xs: seq<T>, p: Parsed<seq<T>>): (q: Parsed<seq<T>>)
    ensures xs == [] ==> q == p
    ensures p.Got? && p.value == [] ==> q == Got(xs, p.rest)
  {
    if p.Fail? then Fail
    else
      assert xs == [] ==> xs + p.value == p.value;
      assert p.value == [] ==> xs + p.value == xs;
      Got(xs + p.value, p.rest)
  }

  // The parts, in order.

  function GetU64(s: seq<Byte>): Parsed<nat> { GetInt(8, s) }

  function PrintU64(x: nat): seq<Byte> { Le(8, x) }

  function GetU32(s: seq<Byte>): Parsed<nat> { GetInt(4, s) }

  function PrintU32(x: nat): seq<Byte> { Le(4, x) }

  function GetTag(s: seq<Byte>): Parsed<Str>
  {
    var (x, r) :- GetStr(s);
    if x.None? then Fail else Got(x.value, r)
  }

  function PrintTag(s: Str): seq<Byte> { PrintStr(Some(s)) }

  function GetTags(s: seq<Byte>): Parsed<seq<Str>>
  {
    var (n, r) :- GetInt(2, s);
    GetN(GetTag, n, r)
  }

  function PrintTags(tags: seq<Str>): seq<Byte> { Le(2, |tags|) + PrintAll(PrintTag, tags) }

  datatype Vecs = Vecs(vecs: nat, dim: nat, floats: seq<nat>)

  /** Version 1 holds one vector, or none; a zero on either side means none. */
  function GetVecs(version: nat, s: seq<Byte>): Parsed<Vecs>
  {
    var (vecs, r) :- if version >= 2 then GetInt(4, s) else Got(1, s);
    var (dim, r') :- GetInt(4, r);
    if vecs == 0 || dim == 0 then Got(Vecs(0, 0, []), r')
    else
      var (floats, r'') :- GetN(GetU32, vecs * dim, r');
      Got(Vecs(vecs, dim, floats), r'')
  }

  function PrintVecs(r: Record): seq<Byte> { Le(4, r.vecs) + Le(4, r.dim) + PrintAll(PrintU32, r.floats) }

  function GetRel(s: seq<Byte>): Parsed<Relationship>
  {
    var (from, r) :- GetInt(8, s);
    var (to, r') :- GetInt(8, r);
    var (kind, r'') :- GetStr(r');
    Got(Relationship(from, to, kind), r'')
  }

  function PrintRel(x: Relationship): seq<Byte> { Le(8, x.from) + Le(8, x.to) + PrintStr(x.kind) }

  function GetRels(s: seq<Byte>): Parsed<seq<Relationship>>
  {
    var (n, r) :- GetInt(2, s);
    GetN(GetRel, n, r)
  }

  function PrintRels(rels: seq<Relationship>): seq<Byte> { Le(2, |rels|) + PrintAll(PrintRel, rels) }

  function GetObject(kind: nat, s: seq<Byte>): Parsed<FactObject>
  {
    if kind == 1 then
      var (id, r) :- GetInt(8, s);
      Got(FactId(id), r)
    else
      var (text, r) :- GetStr(s);
      if text.None? then Fail else Got(FactText(text.value), r)
  }

  /** An object kind other than 1 or 2, a null predicate and an empty one are refused. */
  function GetFact(s: seq<Byte>): Parsed<Fact>
  {
    var (kind, r) :- GetInt(1, s);
    if kind != 1 && kind != 2 then Fail
    else
      var (subject, r') :- GetInt(8, r);
      var (pred, r'') :- GetStr(r');
      if pred.None? then Fail
      else
        var (obj, r''') :- GetObject(kind, r'');
        if pred.value == [] then Fail else Got(Fact(subject, pred.value, obj), r''')
  }

  function PrintObject(o: FactObject): seq<Byte>
  {
    if o.FactId? then Le(8, o.id) else PrintStr(Some(o.text))
  }

  function PrintFact(f: Fact): seq<Byte>
  {
    Le(1, if f.obj.FactId? then 1 else 2) + Le(8, f.subject) + PrintStr(Some(f.pred)) + PrintObject(f.obj)
  }

  function RuleOf(code: nat): Rule
    requires 1 <= code <= 3
  {
    if code == 1 then Transitive else if code == 2 then Symmetric else Inverse
  }

  function GetRoute(s: seq<Byte>): Parsed<Route<()>>
  {
    var (code, r) :- GetInt(1, s);
    var (depth, r') :- GetInt(2, r);
    var (n, r'') :- GetInt(1, r');
    if !(1 <= code <= 3) || !(1 <= n <= MAX_PREMISES) then Fail
    else
      var (premises, r''') :- GetN(GetU64, n, r'');
      Got(Route(RuleOf(code), depth, premises, ()), r''')
  }

  function PrintRoute(rt: Route<()>): seq<Byte>
  {
    Le(1, RuleCode(rt.rule)) + Le(2, rt.depth) + Le(1, |rt.premises|) + PrintAll(PrintU64, rt.premises)
  }

  /** Routes are inserted in order; one that adds nothing is refused. */
  function GetInserted(n: nat, s: seq<Byte>, kept: seq<Route<()>>): Parsed<seq<Route<()>>>
  {
    if n == 0 then Got(kept, s)
    else
      var (rt, r) :- GetRoute(s);
      if Insert(kept, rt) == kept then Fail else GetInserted(n - 1, r, Insert(kept, rt))
  }

  function GetRoutes(s: seq<Byte>): Parsed<seq<Route<()>>>
  {
    var (n, r) :- GetInt(2, s);
    if n == 0 || n > MAX_ROUTES then Fail else GetInserted(n, r, [])
  }

  function PrintRoutes(rs: seq<Route<()>>): seq<Byte> { Le(2, |rs|) + PrintAll(PrintRoute, rs) }

  function GetData(s: seq<Byte>): Parsed<seq<Byte>>
  {
    var (n, r) :- GetInt(4, s);
    if n > |r| then Fail else Got(r[..n], r[n..])
  }

  function PrintData(d: seq<Byte>): seq<Byte> { Le(4, |d|) + d }

  /** A corrupt weight reads as the default. */
  function Weight(bits: nat, fallback: nat): nat { if WeightOk(bits) then bits else fallback }

  function Version(r: Record): nat { if r.routes != [] then 5 else if r.fact.Some? then 3 else 2 }

  predicate KnownVersion(v: nat) { v == 1 || v == 2 || v == 3 || v == 5 }

  datatype Head = Head(version: nat, id: nat, memory: nat, created: nat, updated: nat,
                       importance: nat, confidence: nat, deleted: bool, expires: nat)

  function GetTimes(s: seq<Byte>): Parsed<(nat, nat)>
  {
    var (a, r) :- GetInt(8, s);
    var (b, r') :- GetInt(8, r);
    Got((a, b), r')
  }

  function GetWeights(s: seq<Byte>): Parsed<(nat, nat)>
  {
    var (a, r) :- GetInt(4, s);
    var (b, r') :- GetInt(4, r);
    Got((Weight(a, 0), Weight(b, ONE_BITS)), r')
  }

  function GetHead(s: seq<Byte>): Parsed<Head>
  {
    var (version, r) :- GetInt(1, s);
    if !KnownVersion(version) then Fail
    else
      var (id, r1) :- GetInt(8, r);
      var (memory, r2) :- GetInt(1, r1);
      if memory > MEM_SEMANTIC then Fail
      else
        var (times, r3) :- GetTimes(r2);
        var (weights, r4) :- GetWeights(r3);
        var (deleted, r5) :- GetInt(1, r4);
        var (expires, r6) :- GetInt(8, r5);
        Got(Head(version, id, memory, times.0, times.1, weights.0, weights.1, deleted != 0, expires), r6)
  }

  function PrintHead(r: Record): seq<Byte>
  {
    Le(1, Version(r)) + Le(8, r.id) + Le(1, r.memory)
    + (Le(8, r.created) + Le(8, r.updated)) + (Le(4, r.importance) + Le(4, r.confidence))
    + (Le(1, if r.deleted then 1 else 0) + Le(8, r.expires))
  }

  function GetProvenance(version: nat, s: seq<Byte>): Parsed<(Option<Fact>, seq<Route<()>>)>
  {
    if version < 3 then Got((None, []), s)
    else
      var (fact, r) :- GetFact(s);
      if version < 5 then Got((Some(fact), []), r)
      else
        var (routes, r') :- GetRoutes(r);
        Got((Some(fact), routes), r')
  }

  function PrintProvenance(r: Record): seq<Byte>
  {
    (if r.fact.Some? then PrintFact(r.fact.value) else []) + (if r.routes != [] then PrintRoutes(r.routes) else [])
  }

  function Parse(s: seq<Byte>): Option<Record>
  {
    var body := ParseAll(s);
    if body.Fail? then None else Some(body.value)
  }

  function ParseAll(s: seq<Byte>): Parsed<Record>
  {
    var (h, r) :- GetHead(s);
    var (agent, r1) :- GetStr(r);
    var (tags, r2) :- GetTags(r1);
    var (v, r3) :- GetVecs(h.version, r2);
    var (rels, r4) :- GetRels(r3);
    var (prov, r5) :- GetProvenance(h.version, r4);
    var (data, r6) :- GetData(r5);
    Got(Record(h.id, h.memory, h.created, h.updated, h.importance, h.confidence, h.deleted, h.expires,
               agent, tags, v.vecs, v.dim, v.floats, rels, prov.0, prov.1, data), r6)
  }

  function Print(r: Record): seq<Byte>
  {
    PrintHead(r) + PrintStr(r.agent) + PrintTags(r.tags) + PrintVecs(r) + PrintRels(r.rels) + PrintProvenance(r)
        + PrintData(r.data)
  }
}
