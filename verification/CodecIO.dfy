/** The encoder and decoder as they run: a buffer that grows by appending, and a cursor
    whose error flag sticks. Both are proved to follow the format. */
module CodecIO {
  import opened Facts
  import opened Routes
  import opened Codec

  // ----- writing -------------------------------------------------------------------------

  class Buf {
    var bytes: seq<Byte>

    constructor ()
      ensures bytes == []
    {
      bytes := [];
    }

    method PutBytes(s: seq<Byte>)
      modifies this
      ensures bytes == old(bytes) + s
    {
      bytes := bytes + s;
    }

    /** The low `k` bytes of `v`: a wider value is truncated. */
    method PutInt(k: nat, v: nat)
      modifies this
      ensures bytes == old(bytes) + Le(k, v)
    {
      var left, n := v, 0;
      ghost var before := bytes;
      assert before + Le(k, v) == before + [] + Le(k, v);
      while n < k
        invariant n <= k && before + Le(k, v) == bytes + Le(k - n, left)
      {
        assert bytes + Le(k - n, left) == bytes + [left % 256] + Le(k - n - 1, left / 256);
        bytes := bytes + [left % 256];
        left, n := left / 256, n + 1;
      }
    }

    method PutStr(s: Option<Str>)
      modifies this
      ensures bytes == old(bytes) + PrintStr(s)
    {
      if s.None? {
        PutInt(4, NULL_LEN);
        return;
      }
      PutInt(4, |s.value|);
      PutBytes(s.value);
    }

    method PutHead(r: Record)
      modifies this
      ensures bytes == old(bytes) + PrintHead(r)
    {
      hide Le;
      ghost var start := bytes;
      PutInt(1, if r.routes != [] then 5 else if r.fact.Some? then 3 else 2);
      PutInt(8, r.id);
      PutInt(1, r.memory);
      PutPair(8, r.created, r.updated);
      PutPair(4, r.importance, r.confidence);
      PutInt(1, if r.deleted then 1 else 0);
      PutInt(8, r.expires);
      HeadPieces(start, r);
    }

    method PutPair(k: nat, x: nat, y: nat)
      modifies this
      ensures bytes == old(bytes) + (Le(k, x) + Le(k, y))
    {
      hide Le;
      PutInt(k, x);
      PutInt(k, y);
    }

    method PutTags(tags: seq<Str>)
      modifies this
      ensures bytes == old(bytes) + PrintTags(tags)
    {
      hide Le, PrintStr, PrintAll;
      PutInt(2, |tags|);
      ghost var before := bytes;
      AllOfNone(PrintTag);
      for i := 0 to |tags|
        invariant bytes == before + PrintAll(PrintTag, tags[..i])
      {
        PutStr(Some(tags[i]));
        PrintAllMore(PrintTag, tags[..i], tags[i]);
        assert tags[..i + 1] == tags[..i] + [tags[i]];
      }
      assert tags[..|tags|] == tags;
    }

    method PutVecs(r: Record)
      requires |r.floats| == r.vecs * r.dim
      modifies this
      ensures bytes == old(bytes) + PrintVecs(r)
    {
      hide Le, PrintAll;
      PutInt(4, r.vecs);
      PutInt(4, r.dim);
      ghost var before := bytes;
      AllOfNone(PrintU32);
      for i := 0 to r.vecs * r.dim
        invariant bytes == before + PrintAll(PrintU32, r.floats[..i])
      {
        PutInt(4, r.floats[i]);
        PrintAllMore(PrintU32, r.floats[..i], r.floats[i]);
        assert r.floats[..i + 1] == r.floats[..i] + [r.floats[i]];
      }
      assert r.floats[..|r.floats|] == r.floats;
    }

    method PutRels(rels: seq<Relationship>)
      modifies this
      ensures bytes == old(bytes) + PrintRels(rels)
    {
      hide Le, PrintStr, PrintAll;
      PutInt(2, |rels|);
      ghost var before := bytes;
      AllOfNone(PrintRel);
      for i := 0 to |rels|
        invariant bytes == before + PrintAll(PrintRel, rels[..i])
      {
        ghost var sofar := bytes;
        PutInt(8, rels[i].from);
        PutInt(8, rels[i].to);
        PutStr(rels[i].kind);
        assert bytes == sofar + PrintRel(rels[i]);
        PrintAllMore(PrintRel, rels[..i], rels[i]);
        assert rels[..i + 1] == rels[..i] + [rels[i]];
      }
      assert rels[..|rels|] == rels;
    }

    method PutFact(f: Fact)
      modifies this
      ensures bytes == old(bytes) + PrintFact(f)
    {
      hide Le, PrintStr;
      PutInt(1, if f.obj.FactId? then 1 else 2);
      PutInt(8, f.subject);
      PutStr(Some(f.pred));
      if f.obj.FactId? {
        PutInt(8, f.obj.id);
      } else {
        PutStr(Some(f.obj.text));
      }
    }

    method PutRoute(rt: Route<()>)
      modifies this
      ensures bytes == old(bytes) + PrintRoute(rt)
    {
      hide Le, PrintAll;
      PutInt(1, RuleCode(rt.rule));
      PutInt(2, rt.depth);
      PutInt(1, |rt.premises|);
      ghost var before := bytes;
      AllOfNone(PrintU64);
      for j := 0 to |rt.premises|
        invariant bytes == before + PrintAll(PrintU64, rt.premises[..j])
      {
        PutInt(8, rt.premises[j]);
        PrintAllMore(PrintU64, rt.premises[..j], rt.premises[j]);
        assert rt.premises[..j + 1] == rt.premises[..j] + [rt.premises[j]];
      }
      assert rt.premises[..|rt.premises|] == rt.premises;
    }

    /** Refuses too many routes, and a route with too few or too many premises. */
    method PutRoutes(rs: seq<Route<()>>) returns (ok: bool)
      modifies this
      ensures ok <==> |rs| <= MAX_ROUTES && forall i :: 0 <= i < |rs| ==> 1 <= |rs[i].premises| <= MAX_PREMISES
      ensures ok ==> bytes == old(bytes) + PrintRoutes(rs)
    {
      hide Le, PrintAll, PrintRoute;
      if |rs| > MAX_ROUTES {
        return false;
      }
      PutInt(2, |rs|);
      ghost var before := bytes;
      AllOfNone(PrintRoute);
      for i := 0 to |rs|
        invariant forall j :: 0 <= j < i ==> 1 <= |rs[j].premises| <= MAX_PREMISES
        invariant bytes == before + PrintAll(PrintRoute, rs[..i])
      {
        if |rs[i].premises| == 0 || |rs[i].premises| > MAX_PREMISES {
          return false;
        }
        PutRoute(rs[i]);
        PrintAllMore(PrintRoute, rs[..i], rs[i]);
        assert rs[..i + 1] == rs[..i] + [rs[i]];
      }
      assert rs[..|rs|] == rs;
      ok := true;
    }
  }

  method PutProvenance(b: Buf, r: Record) returns (ok: bool)
    requires r.routes != [] ==> r.fact.Some?
    modifies b
    ensures ok <==> |r.routes| <= MAX_ROUTES && forall i :: 0 <= i < |r.routes| ==>
              1 <= |r.routes[i].premises| <= MAX_PREMISES
    ensures ok ==> b.bytes == old(b.bytes) + PrintProvenance(r)
  {
    hide PrintFact, PrintRoutes;
    ok := true;
    if r.fact.Some? {
      b.PutFact(r.fact.value);
    }
    if r.routes != [] {
      ok := b.PutRoutes(r.routes);
    }
  }

  method PutData(b: Buf, d: seq<Byte>)
    modifies b
    ensures b.bytes == old(b.bytes) + PrintData(d)
  {
    hide Le;
    b.PutInt(4, |d|);
    b.PutBytes(d);
  }

  lemma HeadPieces(start: seq<Byte>, r: Record)
    ensures start + Le(1, Version(r)) + Le(8, r.id) + Le(1, r.memory)
            + (Le(8, r.created) + Le(8, r.updated)) + (Le(4, r.importance) + Le(4, r.confidence))
            + Le(1, if r.deleted then 1 else 0) + Le(8, r.expires)
            == start + PrintHead(r)
  {
    hide Le;
  }

  lemma AllOfNone<T>(show: T -> seq<Byte>)
    ensures forall xs: seq<T> :: PrintAll(show, xs[..0]) == []
  {
  }

  method Encode(r: Record) returns (out: Option<seq<Byte>>)
    requires |r.floats| == r.vecs * r.dim
    ensures out.Some? <==> Encodable(r)
    ensures out.Some? ==> out.value == Print(r)
  {
    hide PrintHead, PrintStr, PrintTags, PrintVecs, PrintRels, PrintProvenance, PrintData;
    if r.routes != [] && r.fact.None? {
      return None;
    }
    var b := new Buf();
    b.PutHead(r);
    assert b.bytes == PrintHead(r);
    b.PutStr(r.agent);
    if |r.tags| >= U16 {
      return None;
    }
    b.PutTags(r.tags);
    if r.vecs >= U32 || r.dim >= U32 {
      return None;
    }
    b.PutVecs(r);
    if |r.rels| >= U16 {
      return None;
    }
    b.PutRels(r.rels);
    var ok := PutProvenance(b, r);
    if !ok {
      return None;
    }
    PutData(b, r.data);
    out := Some(b.bytes);
  }

  // ----- reading ----------------------------------------------------------------------------

  class Cur {
    const p: seq<Byte>
    var off: nat
    var err: bool

    ghost predicate Valid()
      reads this
    {
      off <= |p|
    }

    ghost function Rest(): seq<Byte>
      requires Valid()
      reads this
    {
      p[off..]
    }

    constructor (s: seq<Byte>)
      ensures Valid() && !err && Rest() == s
    {
      p, off, err := s, 0, false;
    }

    /** Past the end, or after an earlier failure, the read yields 0 and the flag stays. */
    method TakeInt(k: nat) returns (v: nat)
      requires Valid()
      modifies this
      ensures Valid() && (err <==> old(err) || GetInt(k, old(Rest())).Fail?)
      ensures if err then v == 0 else GetInt(k, old(Rest())) == Got(v, Rest())
    {
      if err || off + k > |p| {
        err := true;
        return 0;
      }
      ghost var before := Rest();
      v := 0;
      var n := k;
      assert p[off + k..off + k] == [];
      while n > 0
        invariant 0 <= n <= k && off == old(off) && !err && v == FromLe(p[off + n..off + k])
      {
        n := n - 1;
        assert p[off + n..off + k][1..] == p[off + n + 1..off + k];
        v := p[off + n] + 256 * v;
      }
      assert before[..k] == p[off..off + k] && before[k..] == p[off + k..];
      off := off + k;
    }

    method TakeStr() returns (s: Option<Str>)
      requires Valid()
      modifies this
      ensures Valid() && (err <==> old(err) || GetStr(old(Rest())).Fail?)
      ensures !err ==> GetStr(old(Rest())) == Got(s, Rest())
      ensures err ==> s.None?
    {
      var n := TakeInt(4);
      if n == NULL_LEN {
        return None;
      }
      if err || n > |p| - off {
        err := true;
        return None;
      }
      ghost var r := Rest();
      assert p[off..off + n] == r[..n] && p[off + n..] == r[n..];
      s := Some(Cut(p[off..off + n]));
      off := off + n;
    }
  }

  method TakeHead(c: Cur) returns (ok: bool, h: Head)
    requires c.Valid() && !c.err
    modifies c
    ensures c.Valid()
    ensures ok && !c.err ==> GetHead(old(c.Rest())) == Got(h, c.Rest())
    ensures !ok || c.err ==> GetHead(old(c.Rest())).Fail?
  {
    hide GetInt;
    h := Head(0, 0, 0, 0, 0, 0, 0, false, 0);
    var version := c.TakeInt(1);
    if version != 1 && version != 2 && version != 3 && version != 5 {
      return false, h;
    }
    var id := c.TakeInt(8);
    var memory := c.TakeInt(1);
    if memory > MEM_SEMANTIC {
      return false, h;
    }
    var created := c.TakeInt(8);
    var updated := c.TakeInt(8);
    var importance := c.TakeInt(4);
    var confidence := c.TakeInt(4);
    var deleted := c.TakeInt(1);
    var expires := c.TakeInt(8);
    h := Head(version, id, memory, created, updated, Weight(importance, 0), Weight(confidence, ONE_BITS), deleted != 0,
        expires);
    ok := true;
  }

  method TakeTags(c: Cur) returns (ok: bool, tags: seq<Str>)
    requires c.Valid() && !c.err
    modifies c
    ensures c.Valid() && (ok ==> !c.err) && (ok <==> GetTags(old(c.Rest())).Got?)
    ensures ok ==> GetTags(old(c.Rest())) == Got(tags, c.Rest())
  {
    hide GetInt, GetStr;
    tags := [];
    var n := c.TakeInt(2);
    if c.err {
      return false, tags;
    }
    ghost var r := c.Rest();
    for i := 0 to n
      invariant c.Valid() && !c.err
      invariant GetN(GetTag, n, r) == Prepend(tags, GetN(GetTag, n - i, c.Rest()))
    {
      ghost var s := c.Rest();
      NextOf(GetTag, tags, n - i, s);
      var tag := c.TakeStr();
      if c.err || tag.None? {
        return false, tags;
      }
      tags := tags + [tag.value];
    }
    ok := true;
  }

  lemma NextOf<T>(get: seq<Byte> -> Parsed<T>, xs: seq<T>, n: nat, s: seq<Byte>)
    requires n > 0
    ensures Prepend(xs, GetN(get, n, s))
            == if get(s).Fail? then Fail else Prepend(xs + [get(s).value], GetN(get, n - 1, get(s).rest))
  {
    if get(s).Got? && GetN(get, n - 1, get(s).rest).Got? {
      var x, ys := get(s).value, GetN(get, n - 1, get(s).rest).value;
      assert xs + ([x] + ys) == xs + [x] + ys;
    }
  }

  /** Exactly the counts for which all the floats are there. */
  lemma FloatsFit(vecs: nat, dim: nat, left: nat)
    requires dim > 0
    ensures vecs > left / 4 / dim <==> 4 * (vecs * dim) > left
  {
    var floats := left / 4;
    assert floats == dim * (floats / dim) + floats % dim;
    if vecs > floats / dim {
      assert vecs * dim >= (floats / dim + 1) * dim;
    } else {
      assert vecs * dim <= (floats / dim) * dim;
    }
  }

  lemma {:induction false} IntsFit(n: nat, s: seq<Byte>)
    ensures GetN(GetU32, n, s).Got? <==> 4 * n <= |s|
  {
    if n > 0 && 4 <= |s| {
      IntsFit(n - 1, s[4..]);
    }
  }

  method TakeVecs(c: Cur, version: nat) returns (ok: bool, v: Vecs)
    requires c.Valid() && !c.err
    modifies c
    ensures c.Valid() && (ok ==> !c.err) && (ok <==> GetVecs(version, old(c.Rest())).Got?)
    ensures ok ==> GetVecs(version, old(c.Rest())) == Got(v, c.Rest())
  {
    hide GetInt, GetU32;
    v := Vecs(0, 0, []);
    var vecs := 1;
    if version >= 2 {
      vecs := c.TakeInt(4);
    }
    var dim := c.TakeInt(4);
    if c.err {
      return false, v;
    }
    if version == 1 && dim == 0 {
      vecs := 0;
    }
    if dim != 0 && vecs != 0 {
      FloatsFit(vecs, dim, |c.p| - c.off);
      IntsFit(vecs * dim, c.Rest());
      if vecs > (|c.p| - c.off) / 4 / dim {
        return false, v;
      }
      var floats := TakeFloats(c, vecs * dim);
      v := Vecs(vecs, dim, floats);
    }
    ok := true;
  }

  method TakeFloats(c: Cur, n: nat) returns (xs: seq<nat>)
    requires c.Valid() && !c.err && GetN(GetU32, n, c.Rest()).Got?
    modifies c
    ensures c.Valid() && !c.err && GetN(GetU32, n, old(c.Rest())) == Got(xs, c.Rest())
  {
    hide GetInt;
    xs := [];
    ghost var r := c.Rest();
    for i := 0 to n
      invariant c.Valid() && !c.err
      invariant GetN(GetU32, n, r) == Prepend(xs, GetN(GetU32, n - i, c.Rest()))
    {
      NextOf(GetU32, xs, n - i, c.Rest());
      var x := c.TakeInt(4);
      xs := xs + [x];
    }
  }

  method TakeRels(c: Cur) returns (ok: bool, rels: seq<Relationship>)
    requires c.Valid() && !c.err
    modifies c
    ensures c.Valid() && (ok ==> !c.err) && (ok <==> GetRels(old(c.Rest())).Got?)
    ensures ok ==> GetRels(old(c.Rest())) == Got(rels, c.Rest())
  {
    hide GetInt, GetStr;
    rels := [];
    var n := c.TakeInt(2);
    if c.err {
      return false, rels;
    }
    ghost var r := c.Rest();
    for i := 0 to n
      invariant c.Valid() && !c.err
      invariant GetN(GetRel, n, r) == Prepend(rels, GetN(GetRel, n - i, c.Rest()))
    {
      NextOf(GetRel, rels, n - i, c.Rest());
      var from := c.TakeInt(8);
      var to := c.TakeInt(8);
      var kind := c.TakeStr();
      if c.err {
        return false, rels;
      }
      rels := rels + [Relationship(from, to, kind)];
    }
    ok := true;
  }

  method TakeFact(c: Cur) returns (f: Option<Fact>)
    requires c.Valid() && !c.err
    modifies c
    ensures c.Valid() && (f.Some? ==> !c.err) && (f.Some? <==> GetFact(old(c.Rest())).Got?)
    ensures f.Some? ==> GetFact(old(c.Rest())) == Got(f.value, c.Rest())
  {
    hide GetInt, GetStr;
    var kind := c.TakeInt(1);
    if c.err || (kind != 1 && kind != 2) {
      return None;
    }
    var subject := c.TakeInt(8);
    var pred := c.TakeStr();
    if c.err || pred.None? {
      return None;
    }
    var obj;
    if kind == 1 {
      var id := c.TakeInt(8);
      obj := FactId(id);
    } else {
      var text := c.TakeStr();
      if text.None? {
        return None;
      }
      obj := FactText(text.value);
    }
    if c.err || pred.value == [] {
      return None;
    }
    f := Some(Fact(subject, pred.value, obj));
  }

  method TakeRoute(c: Cur) returns (rt: Option<Route<()>>)
    requires c.Valid() && !c.err
    modifies c
    ensures c.Valid() && (rt.Some? ==> !c.err) && (rt.Some? <==> GetRoute(old(c.Rest())).Got?)
    ensures rt.Some? ==> GetRoute(old(c.Rest())) == Got(rt.value, c.Rest())
  {
    hide GetInt;
    var code := c.TakeInt(1);
    var depth := c.TakeInt(2);
    var n := c.TakeInt(1);
    if c.err {
      return None;
    }
    if code == 0 || code > 3 {
      return None;
    }
    if n == 0 || n > MAX_PREMISES {
      return None;
    }
    ghost var r := c.Rest();
    var premises := [];
    for j := 0 to n
      invariant c.Valid()
      invariant if c.err then GetN(GetU64, n, r).Fail?
                else GetN(GetU64, n, r) == Prepend(premises, GetN(GetU64, n - j, c.Rest()))
    {
      NextOf(GetU64, premises, n - j, c.Rest());
      var x := c.TakeInt(8);
      premises := premises + [x];
    }
    if c.err {
      return None;
    }
    rt := Some(Route(RuleOf(code), depth, premises, ()));
  }

  method TakeRoutes(c: Cur) returns (ok: bool, kept: seq<Route<()>>)
    requires c.Valid() && !c.err
    modifies c
    ensures c.Valid() && (ok ==> !c.err) && (ok <==> GetRoutes(old(c.Rest())).Got?)
    ensures ok ==> GetRoutes(old(c.Rest())) == Got(kept, c.Rest())
  {
    hide GetInt, GetRoute, Insert;
    kept := [];
    var n := c.TakeInt(2);
    if c.err || n == 0 || n > MAX_ROUTES {
      return false, kept;
    }
    ghost var r := c.Rest();
    for i := 0 to n
      invariant c.Valid() && !c.err && Sorted(kept) && |kept| <= MAX_ROUTES
      invariant GetInserted(n, r, []) == GetInserted(n - i, c.Rest(), kept)
    {
      var rt := TakeRoute(c);
      if rt.None? {
        return false, kept;
      }
      var more, changed := RoutesInsert(kept, rt.value);
      if !changed {
        return false, kept;
      }
      InsertSorted(kept, rt.value);
      kept := more;
    }
    ok := true;
  }

  method TakeProvenance(c: Cur, version: nat) returns (ok: bool, fact: Option<Fact>, routes: seq<Route<()>>)
    requires c.Valid() && !c.err
    modifies c
    ensures c.Valid() && (ok ==> !c.err) && (ok <==> GetProvenance(version, old(c.Rest())).Got?)
    ensures ok ==> GetProvenance(version, old(c.Rest())) == Got((fact, routes), c.Rest())
  {
    hide GetFact, GetRoutes;
    ok, fact, routes := true, None, [];
    if version >= 3 {
      fact := TakeFact(c);
      if fact.None? {
        return false, fact, routes;
      }
    }
    if version >= 5 {
      ok, routes := TakeRoutes(c);
    }
  }

  method TakeData(c: Cur) returns (ok: bool, data: seq<Byte>)
    requires c.Valid() && !c.err
    modifies c
    ensures c.Valid() && (ok ==> !c.err) && (ok <==> GetData(old(c.Rest())).Got?)
    ensures ok ==> GetData(old(c.Rest())) == Got(data, c.Rest())
  {
    hide GetInt;
    data := [];
    var n := c.TakeInt(4);
    if c.err || n > |c.p| - c.off {
      return false, data;
    }
    ghost var r := c.Rest();
    assert c.p[c.off..c.off + n] == r[..n] && c.p[c.off + n..] == r[n..];
    data := c.p[c.off..c.off + n];
    c.off := c.off + n;
    ok := true;
  }

  /** Reads one record off the front; bytes after it are ignored. */
  method Decode(s: seq<Byte>) returns (out: Option<Record>)
    ensures out == Parse(s)
  {
    hide GetHead, GetStr, GetTags, GetVecs, GetRels, GetProvenance, GetData;
    var c := new Cur(s);
    var ok, h := TakeHead(c);
    if !ok {
      return None;
    }
    var agent := c.TakeStr();
    if c.err {
      return None;
    }
    var tags, v, rels, fact, routes, data;
    ok, tags := TakeTags(c);
    if !ok {
      return None;
    }
    ok, v := TakeVecs(c, h.version);
    if !ok {
      return None;
    }
    ok, rels := TakeRels(c);
    if !ok {
      return None;
    }
    ok, fact, routes := TakeProvenance(c, h.version);
    if !ok {
      return None;
    }
    ok, data := TakeData(c);
    if !ok {
      return None;
    }
    out := Some(Record(h.id, h.memory, h.created, h.updated, h.importance, h.confidence, h.deleted, h.expires,
                       agent, tags, v.vecs, v.dim, v.floats, rels, fact, routes, data));
  }
}
