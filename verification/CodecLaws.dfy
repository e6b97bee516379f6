/** What the record encoding promises: a stored record reads back as itself, and any
    bytes the reader accepts give a record that can be stored again. */
module CodecLaws {
  import opened Facts
  import opened Routes
  import opened Codec

  // ----- printing then parsing ---------------------------------------------------------

  lemma TagsRound(tags: seq<Str>, t: seq<Byte>)
    requires |tags| < U16 && forall i :: 0 <= i < |tags| ==> StrOk(tags[i])
    ensures GetTags(PrintTags(tags) + t) == Got(tags, t)
  {
    Bounds();
    forall i, u | 0 <= i < |tags| ensures GetTag(PrintTag(tags[i]) + u) == Got(tags[i], u) {
      StrRound(Some(tags[i]), u);
    }
    AllRound(GetTag, PrintTag, tags, t);
    assert PrintTags(tags) + t == Le(2, |tags|) + (PrintAll(PrintTag, tags) + t);
    IntRound(2, |tags|, PrintAll(PrintTag, tags) + t);
  }

  lemma VecsRound(version: nat, r: Record, t: seq<Byte>)
    requires version >= 2 && VecsOk(r.vecs, r.dim, r.floats)
    ensures GetVecs(version, PrintVecs(r) + t) == Got(Vecs(r.vecs, r.dim, r.floats), t)
  {
    hide GetInt, Le, PrintAll;
    Bounds();
    forall i, u | 0 <= i < |r.floats| ensures GetU32(PrintU32(r.floats[i]) + u) == Got(r.floats[i], u) {
      assert FloatOk(r.floats[i]);
      IntRound(4, r.floats[i], u);
    }
    AllRound(GetU32, PrintU32, r.floats, t);
    var u := PrintAll(PrintU32, r.floats) + t;
    assert PrintVecs(r) + t == Le(4, r.vecs) + (Le(4, r.dim) + u);
    IntRound(4, r.vecs, Le(4, r.dim) + u);
    IntRound(4, r.dim, u);
  }

  lemma RelRound(x: Relationship, t: seq<Byte>)
    requires RelOk(x)
    ensures GetRel(PrintRel(x) + t) == Got(x, t)
  {
    hide GetInt, GetStr;
    Bounds();
    assert PrintRel(x) + t == Le(8, x.from) + (Le(8, x.to) + (PrintStr(x.kind) + t));
    IntRound(8, x.from, Le(8, x.to) + (PrintStr(x.kind) + t));
    IntRound(8, x.to, PrintStr(x.kind) + t);
    StrRound(x.kind, t);
  }

  lemma RelsRound(rels: seq<Relationship>, t: seq<Byte>)
    requires |rels| < U16 && forall i :: 0 <= i < |rels| ==> RelOk(rels[i])
    ensures GetRels(PrintRels(rels) + t) == Got(rels, t)
  {
    hide GetInt, GetRel, PrintRel;
    Bounds();
    forall i, u | 0 <= i < |rels| ensures GetRel(PrintRel(rels[i]) + u) == Got(rels[i], u) {
      RelRound(rels[i], u);
    }
    AllRound(GetRel, PrintRel, rels, t);
    assert PrintRels(rels) + t == Le(2, |rels|) + (PrintAll(PrintRel, rels) + t);
    IntRound(2, |rels|, PrintAll(PrintRel, rels) + t);
  }

  lemma ObjectRound(o: FactObject, t: seq<Byte>)
    requires if o.FactId? then o.id < U64 else StrOk(o.text)
    ensures GetObject(if o.FactId? then 1 else 2, PrintObject(o) + t) == Got(o, t)
  {
    hide GetInt, GetStr;
    Bounds();
    match o
    case FactId(id) => IntRound(8, id, t);
    case FactText(text) => StrRound(Some(text), t);
  }

  lemma FactRound(f: Fact, t: seq<Byte>)
    requires FactOk(f)
    ensures GetFact(PrintFact(f) + t) == Got(f, t)
  {
    hide GetInt, GetStr, GetObject, PrintObject, PrintStr, Le;
    Bounds();
    var kind := if f.obj.FactId? then 1 else 2;
    var u := PrintObject(f.obj) + t;
    var v := PrintStr(Some(f.pred)) + u;
    assert PrintFact(f) + t == Le(1, kind) + (Le(8, f.subject) + v);
    IntRound(1, kind, Le(8, f.subject) + v);
    IntRound(8, f.subject, v);
    StrRound(Some(f.pred), u);
    ObjectRound(f.obj, t);
  }

  lemma RouteRound(rt: Route<()>, t: seq<Byte>)
    requires RouteOk(rt)
    ensures GetRoute(PrintRoute(rt) + t) == Got(rt, t)
  {
    hide GetInt, PrintAll, Le;
    Bounds();
    forall i, u | 0 <= i < |rt.premises| ensures GetU64(PrintU64(rt.premises[i]) + u) == Got(rt.premises[i], u) {
      assert IdOk(rt.premises[i]);
      IntRound(8, rt.premises[i], u);
    }
    AllRound(GetU64, PrintU64, rt.premises, t);
    var u := PrintAll(PrintU64, rt.premises) + t;
    var v := Le(1, |rt.premises|) + u;
    assert PrintRoute(rt) + t == Le(1, RuleCode(rt.rule)) + (Le(2, rt.depth) + v);
    IntRound(1, RuleCode(rt.rule), Le(2, rt.depth) + v);
    IntRound(2, rt.depth, v);
    IntRound(1, |rt.premises|, u);
    assert rt.note == () && RuleOf(RuleCode(rt.rule)) == rt.rule;
  }

  /** Inserting a sorted list in order appends each route. */
  lemma InsertLast(rs: seq<Route<()>>, i: nat)
    requires Sorted(rs) && i < |rs| <= MAX_ROUTES
    ensures Insert(rs[..i], rs[i]) == rs[..i + 1]
  {
    hide Cmp;
    var at := Position(rs[..i], rs[i]);
    if at < i {
      CmpOrder(rs[at], rs[i], rs[i]);
    }
  }

  lemma {:induction false} InsertedRound(rs: seq<Route<()>>, i: nat, t: seq<Byte>)
    requires RoutesOk(rs) && i <= |rs|
    ensures GetInserted(|rs| - i, PrintAll(PrintRoute, rs[i..]) + t, rs[..i]) == Got(rs, t)
    decreases |rs| - i
  {
    hide GetRoute, PrintRoute, Sorted, Insert;
    if i == |rs| {
      assert rs[..i] == rs && PrintAll(PrintRoute, rs[i..]) + t == t;
    } else {
      assert RouteOk(rs[i]);
      var u := PrintAll(PrintRoute, rs[i + 1..]) + t;
      assert rs[i..][1..] == rs[i + 1..];
      assert PrintAll(PrintRoute, rs[i..]) + t == PrintRoute(rs[i]) + u;
      RouteRound(rs[i], u);
      InsertLast(rs, i);
      assert |rs[..i + 1]| != |rs[..i]|;
      InsertedRound(rs, i + 1, t);
    }
  }

  lemma RoutesRound(rs: seq<Route<()>>, t: seq<Byte>)
    requires RoutesOk(rs) && rs != []
    ensures GetRoutes(PrintRoutes(rs) + t) == Got(rs, t)
  {
    hide GetInt, Sorted, Le, PrintAll, RouteOk, GetInserted;
    Bounds();
    var u := PrintAll(PrintRoute, rs) + t;
    assert PrintRoutes(rs) + t == Le(2, |rs|) + u;
    IntRound(2, |rs|, u);
    assert rs[0..] == rs && rs[..0] == [];
    InsertedRound(rs, 0, t);
  }

  lemma ProvenanceRound(r: Record, t: seq<Byte>)
    requires (r.fact.Some? ==> FactOk(r.fact.value)) && RoutesOk(r.routes) && (r.routes != [] ==> r.fact.Some?)
    ensures GetProvenance(Version(r), PrintProvenance(r) + t) == Got((r.fact, r.routes), t)
  {
    hide GetFact, PrintFact, GetRoutes, PrintRoutes, RoutesOk, FactOk;
    if r.fact.None? {
      assert PrintProvenance(r) + t == t;
    } else if r.routes == [] {
      assert PrintProvenance(r) + t == PrintFact(r.fact.value) + t;
      FactRound(r.fact.value, t);
    } else {
      var u := PrintRoutes(r.routes) + t;
      assert PrintProvenance(r) + t == PrintFact(r.fact.value) + u;
      FactRound(r.fact.value, u);
      RoutesRound(r.routes, t);
    }
  }

  lemma DataRound(d: seq<Byte>, t: seq<Byte>)
    requires |d| < U32
    ensures GetData(PrintData(d) + t) == Got(d, t)
  {
    hide GetInt, Le;
    Bounds();
    assert PrintData(d) + t == Le(4, |d|) + (d + t);
    IntRound(4, |d|, d + t);
    assert (d + t)[..|d|] == d && (d + t)[|d|..] == t;
  }

  lemma PairRound(k: nat, a: nat, b: nat, t: seq<Byte>)
    requires a < Bound(k) && b < Bound(k)
    ensures GetInt(k, Le(k, a) + Le(k, b) + t) == Got(a, Le(k, b) + t)
    ensures GetInt(k, Le(k, b) + t) == Got(b, t)
  {
    hide GetInt, Le;
    assert Le(k, a) + Le(k, b) + t == Le(k, a) + (Le(k, b) + t);
    IntRound(k, a, Le(k, b) + t);
    IntRound(k, b, t);
  }

  lemma HeadRound(r: Record, t: seq<Byte>)
    requires HeadOk(r)
    ensures GetHead(PrintHead(r) + t)
            == Got(Head(Version(r), r.id, r.memory, r.created, r.updated, r.importance, r.confidence, r.deleted,
                r.expires), t)
  {
    hide GetInt, Le;
    Bounds();
    var gone := if r.deleted then 1 else 0;
    var d := Le(1, gone) + (Le(8, r.expires) + t);
    var w := (Le(4, r.importance) + Le(4, r.confidence)) + d;
    var m := (Le(8, r.created) + Le(8, r.updated)) + w;
    assert PrintHead(r) + t == Le(1, Version(r)) + (Le(8, r.id) + (Le(1, r.memory) + m)) by { HeadParts(r, t); }
    IntRound(1, Version(r), Le(8, r.id) + (Le(1, r.memory) + m));
    IntRound(8, r.id, Le(1, r.memory) + m);
    IntRound(1, r.memory, m);
    PairRound(8, r.created, r.updated, w);
    PairRound(4, r.importance, r.confidence, d);
    IntRound(1, gone, Le(8, r.expires) + t);
    IntRound(8, r.expires, t);
  }

  lemma HeadParts(r: Record, t: seq<Byte>)
    ensures PrintHead(r) + t
            == Le(1, Version(r)) + (Le(8, r.id) + (Le(1, r.memory)
               + ((Le(8, r.created) + Le(8, r.updated))
                  + ((Le(4, r.importance) + Le(4, r.confidence))
                     + (Le(1, if r.deleted then 1 else 0) + (Le(8, r.expires) + t))))))
  {
  }

  lemma PrintParts(r: Record, t: seq<Byte>)
    ensures Print(r) + t
            == PrintHead(r) + (PrintStr(r.agent) + (PrintTags(r.tags) + (PrintVecs(r)
               + (PrintRels(r.rels) + (PrintProvenance(r) + (PrintData(r.data) + t))))))
  {
    hide PrintHead, PrintStr, PrintTags, PrintVecs, PrintRels, PrintProvenance, PrintData;
  }

  /** A well-formed record decodes from its own encoding, whatever follows it. */
  lemma RoundTrip(r: Record, t: seq<Byte>)
    requires Codec.WellFormed(r)
    ensures Parse(Print(r) + t) == Some(r)
  {
    hide PrintHead, PrintStr, PrintTags, PrintVecs, PrintRels, PrintProvenance, PrintData,
         GetHead, GetStr, GetTags, GetVecs, GetRels, GetProvenance, GetData, Print, RoutesOk;
    PrintParts(r, t);
    var t5 := PrintData(r.data) + t;
    var t4 := PrintProvenance(r) + t5;
    var t3 := PrintRels(r.rels) + t4;
    var t2 := PrintVecs(r) + t3;
    var t1 := PrintTags(r.tags) + t2;
    HeadRound(r, PrintStr(r.agent) + t1);
    StrRound(r.agent, t1);
    TagsRound(r.tags, t2);
    VecsRound(Version(r), r, t3);
    RelsRound(r.rels, t4);
    ProvenanceRound(r, t5);
    DataRound(r.data, t);
  }

  // ----- parsing accepts only well-formed records ----------------------------------------

  lemma TagsRead(s: seq<Byte>)
    ensures GetTags(s).Got? ==> |GetTags(s).value| < U16 && forall i :: 0 <= i < |GetTags(s).value| ==>
              StrOk(GetTags(s).value[i])
  {
    hide GetInt;
    Bounds();
    IntBound(2, s);
    if GetInt(2, s).Got? {
      forall u | GetTag(u).Got? ensures StrOk(GetTag(u).value) {
        StrFitsRead(u);
      }
      AllRead(GetTag, StrOk, GetInt(2, s).value, GetInt(2, s).rest);
    }
  }

  lemma VecsRead(version: nat, s: seq<Byte>)
    ensures var p := GetVecs(version, s); p.Got? ==> VecsOk(p.value.vecs, p.value.dim, p.value.floats)
  {
    hide GetInt;
    Bounds();
    var p := GetVecs(version, s);
    if p.Got? && p.value.vecs != 0 {
      IntBound(4, s);
      var r := if version >= 2 then GetInt(4, s).rest else s;
      IntBound(4, r);
      forall u | GetU32(u).Got? ensures FloatOk(GetU32(u).value) {
        IntBound(4, u);
      }
      AllRead(GetU32, FloatOk, p.value.vecs * p.value.dim, GetInt(4, r).rest);
    }
  }

  lemma RelsRead(s: seq<Byte>)
    ensures GetRels(s).Got? ==> |GetRels(s).value| < U16 && forall i :: 0 <= i < |GetRels(s).value| ==>
              RelOk(GetRels(s).value[i])
  {
    hide GetInt, GetRel;
    Bounds();
    IntBound(2, s);
    if GetInt(2, s).Got? {
      forall u | GetRel(u).Got? ensures RelOk(GetRel(u).value) {
        RelRead(u);
      }
      AllRead(GetRel, RelOk, GetInt(2, s).value, GetInt(2, s).rest);
    }
  }

  lemma RelRead(s: seq<Byte>)
    ensures GetRel(s).Got? ==> RelOk(GetRel(s).value)
  {
    hide GetInt, GetStr;
    Bounds();
    if GetRel(s).Got? {
      var r := GetInt(8, s).rest;
      IntBound(8, s);
      IntBound(8, r);
      StrFitsRead(GetInt(8, r).rest);
    }
  }

  lemma FactRead(s: seq<Byte>)
    ensures GetFact(s).Got? ==> FactOk(GetFact(s).value)
  {
    hide GetInt, GetStr;
    Bounds();
    if GetFact(s).Got? {
      var r := GetInt(1, s).rest;
      IntBound(8, r);
      var r' := GetInt(8, r).rest;
      StrFitsRead(r');
      IntBound(8, GetStr(r').rest);
      StrFitsRead(GetStr(r').rest);
    }
  }

  lemma RouteRead(s: seq<Byte>)
    ensures GetRoute(s).Got? ==> RouteOk(GetRoute(s).value)
  {
    hide GetInt;
    Bounds();
    if GetRoute(s).Got? {
      var r := GetInt(1, s).rest;
      IntBound(2, r);
      var r' := GetInt(2, r).rest;
      forall u | GetU64(u).Got? ensures IdOk(GetU64(u).value) {
        IntBound(8, u);
      }
      AllRead(GetU64, IdOk, GetInt(1, r').value, GetInt(1, r').rest);
    }
  }

  lemma {:induction false} InsertedRead(n: nat, s: seq<Byte>, kept: seq<Route<()>>)
    requires RoutesOk(kept)
    ensures var p := GetInserted(n, s, kept);
            p.Got? ==> RoutesOk(p.value) && (n > 0 ==> p.value != [])
  {
    hide GetRoute, Sorted, Insert, RouteOk;
    if n > 0 && GetRoute(s).Got? {
      var rt := GetRoute(s).value;
      RouteRead(s);
      InsertSorted(kept, rt);
      InsertMembers(kept, rt);
      assert forall i :: 0 <= i < |Insert(kept, rt)| ==> Insert(kept, rt)[i] in kept || Insert(kept, rt)[i] == rt;
      InsertedRead(n - 1, GetRoute(s).rest, Insert(kept, rt));
      StaysNonEmpty(n - 1, GetRoute(s).rest, Insert(kept, rt));
    }
  }

  lemma {:induction false} StaysNonEmpty(n: nat, s: seq<Byte>, kept: seq<Route<()>>)
    requires kept != [] && Sorted(kept) && |kept| <= MAX_ROUTES
    ensures GetInserted(n, s, kept).Got? ==> GetInserted(n, s, kept).value != []
  {
    hide GetRoute, Sorted, Insert;
    if n > 0 && GetRoute(s).Got? {
      InsertSorted(kept, GetRoute(s).value);
      StaysNonEmpty(n - 1, GetRoute(s).rest, Insert(kept, GetRoute(s).value));
    }
  }

  lemma ProvenanceRead(version: nat, s: seq<Byte>)
    ensures var p := GetProvenance(version, s);
            p.Got? ==>
              && (p.value.0.Some? ==> FactOk(p.value.0.value)) && RoutesOk(p.value.1)
              && (p.value.0.Some? <==> version >= 3) && (p.value.1 != [] <==> version >= 5)
  {
    hide GetFact, GetInt, FactOk, GetInserted;
    var p := GetProvenance(version, s);
    if p.Got? && version >= 3 {
      FactRead(s);
      if version >= 5 {
        var r := GetFact(s).rest;
        InsertedRead(GetInt(2, r).value, GetInt(2, r).rest, []);
      }
    }
  }

  lemma HeadRead(s: seq<Byte>)
    ensures var p := GetHead(s);
            p.Got? ==>
              && KnownVersion(p.value.version) && p.value.id < U64 && p.value.memory <= MEM_SEMANTIC
              && p.value.created < U64 && p.value.updated < U64
              && WeightOk(p.value.importance) && WeightOk(p.value.confidence) && p.value.expires < U64
              && GetInt(1, s) == Got(p.value.version, GetInt(1, s).rest)
  {
    hide GetInt;
    Bounds();
    if GetHead(s).Got? {
      var r := GetInt(1, s).rest;
      IntBound(8, r);
      var r2 := GetInt(1, GetInt(8, r).rest).rest;
      IntBound(8, r2);
      IntBound(8, GetInt(8, r2).rest);
      var r4 := GetWeights(GetTimes(r2).rest).rest;
      IntBound(8, GetInt(1, r4).rest);
    }
  }

  lemma DataRead(s: seq<Byte>)
    ensures GetData(s).Got? ==> |GetData(s).value| < U32
  {
    Bounds();
    IntBound(4, s);
  }

  /** Whatever the reader accepts is well formed, the writer accepts it, and its version
      says exactly whether it carries a fact and a derivation. */
  lemma ParsedWellFormed(s: seq<Byte>)
    requires Parse(s).Some?
    ensures var r := Parse(s).value;
            && Codec.WellFormed(r) && Encodable(r)
            && s != [] && KnownVersion(s[0]) && Version(r) == (if s[0] == 1 then 2 else s[0])
  {
    hide GetHead, GetStr, GetTags, GetVecs, GetRels, GetProvenance, GetData, StrFits, StrOk, FactOk, VecsOk, RelOk,
        Sorted;
    HeadRead(s);
    var h := GetHead(s);
    StrFitsRead(h.rest);
    var r1 := GetStr(h.rest).rest;
    TagsRead(r1);
    var r2 := GetTags(r1).rest;
    VecsRead(h.value.version, r2);
    var r3 := GetVecs(h.value.version, r2).rest;
    RelsRead(r3);
    var r4 := GetRels(r3).rest;
    ProvenanceRead(h.value.version, r4);
    DataRead(GetProvenance(h.value.version, r4).rest);
    FirstByte(s);
    var r := Parse(s).value;
    EncodableIf(r);
  }

  lemma FirstByte(s: seq<Byte>)
    ensures GetInt(1, s).Got? ==> s != [] && GetInt(1, s).value == s[0]
  {
    if s != [] {
      var one := s[..1];
      assert one[1..] == [] && FromLe(one[1..]) == 0 && FromLe(one) == one[0] + 256 * FromLe(one[1..]);
    }
  }

  /** The encoder refuses no well-formed record. */
  lemma EncodableIf(r: Record)
    requires Codec.WellFormed(r)
    ensures Encodable(r)
  {
  }

  /** Storing again what was read gives it back. */
  lemma ReadStable(s: seq<Byte>, t: seq<Byte>)
    requires Parse(s).Some?
    ensures Encodable(Parse(s).value) && Parse(Print(Parse(s).value) + t) == Parse(s)
  {
    hide Parse, Print, Encodable;
    ParsedWellFormed(s);
    RoundTrip(Parse(s).value, t);
  }

  /** Two well-formed records with the same encoding are the same record. */
  lemma PrintInjective(a: Record, b: Record)
    requires Codec.WellFormed(a) && Codec.WellFormed(b) && Print(a) == Print(b)
    ensures a == b
  {
    hide Parse, Print;
    RoundTrip(a, []);
    RoundTrip(b, []);
  }
}
