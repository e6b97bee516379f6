/** Per-namespace quotas. Usage is kept by differences at the one place the live set
    changes, and compared here with what the live records really add up to. */
module Tenants {
  import opened Facts
  import opened Codec

  const MAX_FRAME := 0xFFFF_FFFF

  datatype Status = Okay | Internal | QuotaExceeded | NotFound | Immutable | Invalid

  datatype Tenant = Tenant(ns: Str, records: nat, bytes: nat)

  type Live = map<nat, Record>

  // ----- sums over the live records ----------------------------------------------------

  ghost function Pick(m: Live): (k: nat)
    requires m != map[]
    ensures k in m
  {
    var k :| k in m; k
  }

  ghost function Sum(m: Live, w: Record -> nat): nat
    decreases |m|
  {
    if m == map[] then 0 else w(m[Pick(m)]) + Sum(m - {Pick(m)}, w)
  }

  lemma {:induction false} Peel(m: Live, k: nat, w: Record -> nat)
    requires k in m
    ensures Sum(m, w) == w(m[k]) + Sum(m - {k}, w)
    decreases |m|
  {
    var x := Pick(m);
    if x != k {
      Peel(m - {x}, k, w);
      Peel(m - {k}, x, w);
      assert m - {x} - {k} == m - {k} - {x};
    }
  }

  function Share(m: Live, k: nat, w: Record -> nat): nat { if k in m then w(m[k]) else 0 }

  lemma SumDrop(m: Live, k: nat, w: Record -> nat)
    ensures Sum(m - {k}, w) == Sum(m, w) - Share(m, k, w)
  {
    if k in m {
      Peel(m, k, w);
    } else {
      assert m - {k} == m;
    }
  }

  lemma SumPut(m: Live, k: nat, r: Record, w: Record -> nat)
    ensures Sum(m[k := r], w) == Sum(m, w) - Share(m, k, w) + w(r)
  {
    Peel(m[k := r], k, w);
    assert m[k := r] - {k} == m - {k};
    SumDrop(m, k, w);
  }

  function One(ns: Str): Record -> nat { (r: Record) => if r.agent == Some(ns) then 1 else 0 }

  function Length(ns: Str): Record -> nat { (r: Record) => if r.agent == Some(ns) then |Print(r)| else 0 }

  /** How many live records a namespace has, and their encoded length. */
  ghost function CountOf(m: Live, ns: Str): nat { Sum(m, One(ns)) }

  ghost function BytesOf(m: Live, ns: Str): nat { Sum(m, Length(ns)) }

  // ----- the usage table -------------------------------------------------------------------

  ghost predicate OnePerName(t: seq<Tenant>) { forall i, j :: 0 <= i < j < |t| ==> t[i].ns != t[j].ns }

  function Floor(x: int): nat { if x < 0 then 0 else x }

  /** A namespace's entry, all zero if it has none. */
  ghost function EntryOf(t: seq<Tenant>, ns: Str): (e: Tenant)
    ensures e.ns == ns
  {
    if exists i :: 0 <= i < |t| && t[i].ns == ns then (var i :| 0 <= i < |t| && t[i].ns == ns; t[i])
        else Tenant(ns, 0, 0)
  }

  lemma EntryAt(t: seq<Tenant>, i: nat)
    requires OnePerName(t) && i < |t|
    ensures EntryOf(t, t[i].ns) == t[i]
  {
  }

  /** Changing one entry leaves the other namespaces' alone. */
  lemma EntryKept(t: seq<Tenant>, i: nat, e: Tenant, other: Str)
    requires OnePerName(t) && i <= |t| && other != e.ns
    requires if i < |t| then t[i].ns == e.ns else forall j :: 0 <= j < |t| ==> t[j].ns != e.ns
    ensures var t' := if i < |t| then t[i := e] else t + [e];
            OnePerName(t') && EntryOf(t', other) == EntryOf(t, other)
  {
    var t' := if i < |t| then t[i := e] else t + [e];
    if j :| 0 <= j < |t| && t[j].ns == other {
      assert t'[j] == t[j];
      EntryAt(t, j);
      EntryAt(t', j);
    }
  }

  class TenantTable {
    var t: seq<Tenant>

    ghost predicate Valid()
      reads this
    {
      OnePerName(t)
    }

    constructor ()
      ensures Valid() && t == []
    {
      t := [];
    }

    method Find(ns: Str) returns (at: Option<nat>)
      ensures at.Some? ==> at.value < |t| && t[at.value].ns == ns
      ensures at.None? ==> forall i :: 0 <= i < |t| ==> t[i].ns != ns
    {
      for i := 0 to |t|
        invariant forall j :: 0 <= j < i ==> t[j].ns != ns
      {
        if t[i].ns == ns {
          return Some(i);
        }
      }
      return None;
    }

    /** Adds signed differences; a counter never goes below zero. */
    method Adjust(ns: Str, dRecords: int, dBytes: int)
      requires Valid()
      modifies this
      ensures Valid()
      ensures var e := EntryOf(old(t), ns);
              EntryOf(t, ns) == Tenant(ns, Floor(e.records + dRecords), Floor(e.bytes + dBytes))
      ensures forall other :: other != ns ==> EntryOf(t, other) == EntryOf(old(t), other)
    {
      var at := Find(ns);
      ghost var was := t;
      var i := |t|;
      var e := Tenant(ns, 0, 0);
      if at.Some? {
        i := at.value;
        e := t[i];
        EntryAt(t, i);
      }
      var records := if dRecords < 0 && -dRecords > e.records then 0 else e.records + dRecords;
      var bytes := if dBytes < 0 && -dBytes > e.bytes then 0 else e.bytes + dBytes;
      e := Tenant(ns, records, bytes);
      t := if i < |t| then t[i := e] else t + [e];
      EntryAt(t, i);
      forall other | other != ns ensures EntryOf(t, other) == EntryOf(was, other) {
        EntryKept(was, i, e, other);
      }
    }

    method WouldExceed(ns: Str, addRecords: nat, addBytes: nat, maxRecords: nat, maxBytes: nat) returns (exceed: bool)
      requires Valid()
      ensures exceed <==>
        || (maxRecords > 0 && addRecords > 0 && EntryOf(t, ns).records + addRecords > maxRecords)
        || (maxBytes > 0 && addBytes > 0 && EntryOf(t, ns).bytes + addBytes > maxBytes)
    {
      if maxRecords == 0 && maxBytes == 0 {
        return false;
      }
      var at := Find(ns);
      var records, bytes := 0, 0;
      if at.Some? {
        EntryAt(t, at.value);
        records, bytes := t[at.value].records, t[at.value].bytes;
      }
      exceed := (maxRecords > 0 && addRecords > 0 && records + addRecords > maxRecords)
                || (maxBytes > 0 && addBytes > 0 && bytes + addBytes > maxBytes);
    }
  }

  // ----- the live set -----------------------------------------------------------------------

  /** The live records once `rec`'s new version is in. */
  function After(m: Live, rec: Record): Live { if rec.deleted then m - {rec.id} else m[rec.id := rec] }

  ghost predicate Fits(m: Live, ns: Str, maxRecords: nat, maxBytes: nat)
  {
    && (maxRecords > 0 ==> CountOf(m, ns) <= maxRecords)
    && (maxBytes > 0 ==> BytesOf(m, ns) <= maxBytes)
  }

  predicate LiveOk(m: Live) { forall id :: id in m ==> m[id].id == id && !m[id].deleted }

  predicate SameOwner(m: Live, rec: Record) { rec.id in m ==> m[rec.id].agent == rec.agent }

  /** What a write changes, in its own namespace and in the others. */
  lemma AfterSums(m: Live, rec: Record, ns: Str)
    requires SameOwner(m, rec)
    ensures CountOf(After(m, rec), ns) - CountOf(m, ns)
            == if rec.agent == Some(ns) then (if rec.deleted then 0 else 1) - (if rec.id in m then 1 else 0) else 0
    ensures BytesOf(After(m, rec), ns) - BytesOf(m, ns)
            == if rec.agent == Some(ns) then (if rec.deleted then 0 else |Print(rec)|) - (if rec.id in m
                then |Print(m[rec.id])| else 0) else 0
  {
    hide Print, Sum;
    if rec.deleted {
      SumDrop(m, rec.id, One(ns));
      SumDrop(m, rec.id, Length(ns));
    } else {
      SumPut(m, rec.id, rec, One(ns));
      SumPut(m, rec.id, rec, Length(ns));
    }
  }

  /** The differences a write is charged with. */
  function RecordsDelta(m: Live, rec: Record): int { (if rec.deleted then 0 else 1) - (if rec.id in m then 1 else 0) }

  function BytesDelta(m: Live, rec: Record): int
  {
    (if rec.deleted then 0 else |Print(rec)|) - (if rec.id in m then |Print(m[rec.id])| else 0)
  }

  /** The test on the positive differences is the test on the resulting totals. */
  lemma ExceedsExactly(m: Live, rec: Record, ns: Str, maxRecords: nat, maxBytes: nat)
    requires SameOwner(m, rec) && rec.agent == Some(ns) && Fits(m, ns, maxRecords, maxBytes)
    ensures var dr, db := RecordsDelta(m, rec), BytesDelta(m, rec);
            (|| (maxRecords > 0 && dr > 0 && CountOf(m, ns) + dr > maxRecords)
             || (maxBytes > 0 && db > 0 && BytesOf(m, ns) + db > maxBytes))
            <==> !Fits(After(m, rec), ns, maxRecords, maxBytes)
  {
    hide CountOf, BytesOf, Print;
    AfterSums(m, rec, ns);
  }

  ghost predicate Agrees(t: seq<Tenant>, m: Live)
  {
    forall ns :: EntryOf(t, ns) == Tenant(ns, CountOf(m, ns), BytesOf(m, ns))
  }

  ghost predicate AllFit(m: Live, maxRecords: nat, maxBytes: nat) { forall ns :: Fits(m, ns, maxRecords, maxBytes) }

  /** Charging the differences keeps the table equal to the sums. */
  lemma ChargedAgrees(t: seq<Tenant>, m: Live, rec: Record, t': seq<Tenant>)
    requires SameOwner(m, rec) && Agrees(t, m)
    requires forall ns :: if rec.agent == Some(ns)
                          then EntryOf(t', ns).records == EntryOf(t, ns).records + RecordsDelta(m, rec)
                               && EntryOf(t', ns).bytes == EntryOf(t, ns).bytes + BytesDelta(m, rec)
                          else EntryOf(t', ns) == EntryOf(t, ns)
    ensures Agrees(t', After(m, rec))
  {
    hide CountOf, BytesOf, Print;
    forall ns ensures EntryOf(t', ns) == Tenant(ns, CountOf(After(m, rec), ns), BytesOf(After(m, rec), ns)) {
      AfterSums(m, rec, ns);
    }
  }

  /** The saturation at zero never applies. */
  lemma NotBelowZero(m: Live, rec: Record, ns: Str)
    requires SameOwner(m, rec) && rec.agent == Some(ns)
    ensures CountOf(m, ns) + RecordsDelta(m, rec) >= 0 && BytesOf(m, ns) + BytesDelta(m, rec) >= 0
  {
    hide CountOf, BytesOf, Print;
    AfterSums(m, rec, ns);
  }

  lemma AllStillFit(m: Live, rec: Record, maxRecords: nat, maxBytes: nat)
    requires SameOwner(m, rec) && AllFit(m, maxRecords, maxBytes)
    requires rec.agent.Some? ==> Fits(After(m, rec), rec.agent.value, maxRecords, maxBytes)
    ensures AllFit(After(m, rec), maxRecords, maxBytes)
  {
    hide CountOf, BytesOf, Print;
    forall ns ensures Fits(After(m, rec), ns, maxRecords, maxBytes) {
      assert Fits(m, ns, maxRecords, maxBytes);
      AfterSums(m, rec, ns);
    }
  }

  /** A delete never takes a namespace past a quota it was within. */
  lemma DeleteFits(m: Live, rec: Record, ns: Str, maxRecords: nat, maxBytes: nat)
    requires SameOwner(m, rec) && rec.deleted && Fits(m, ns, maxRecords, maxBytes)
    ensures Fits(After(m, rec), ns, maxRecords, maxBytes)
  {
    hide Sum, Print;
    AfterSums(m, rec, ns);
  }

  datatype Patch = Patch(data: Option<seq<Byte>>, tags: Option<seq<Str>>, importance: Option<nat>,
      confidence: Option<nat>)

  function Patched(r: Record, p: Patch, now: nat): Record
  {
    r.(data := if p.data.Some? then p.data.value else r.data,
       tags := if p.tags.Some? then p.tags.value else r.tags,
       importance := if p.importance.Some? then p.importance.value else r.importance,
       confidence := if p.confidence.Some? then p.confidence.value else r.confidence,
       updated := now)
  }

  predicate HasRel(rels: seq<Relationship>, to: nat, kind: Option<Str>)
  {
    exists i :: 0 <= i < |rels| && rels[i].to == to && rels[i].kind == kind
  }

  /** How the write of a live record ends: refused exactly when what it would leave live
      does not fit its namespace's quota. */
  ghost predicate Outcome(m: Live, rec: Record, maxRecords: nat, maxBytes: nat, st: Status)
  {
    var fits := rec.agent.Some? ==> Fits(m[rec.id := rec], rec.agent.value, maxRecords, maxBytes);
    st == if !Encodable(rec) then Internal
          else if !fits then QuotaExceeded
          else if |Print(rec)| > MAX_FRAME then Internal
          else Okay
  }

  /** A live record the caller may act on. */
  predicate Reachable(m: Live, caller: Option<Str>, id: nat) { id in m && !Denied(caller, m[id]) }

  predicate Denied(caller: Option<Str>, r: Record) { caller.Some? && r.agent != caller }

  class Store {
    const maxRecords: nat
    const maxBytes: nat
    const tenants: TenantTable
    var live: Live
    var next: nat

    /** Usage is exact and within quota, for every namespace. */
    ghost predicate Valid()
      reads this, tenants
    {
      && tenants.Valid() && LiveOk(live) && (forall id :: id in live ==> id < next)
      && Agrees(tenants.t, live) && AllFit(live, maxRecords, maxBytes)
    }

    constructor (maxRecords: nat, maxBytes: nat)
      ensures Valid() && live == map[] && fresh(tenants)
    {
      this.maxRecords, this.maxBytes, live, next := maxRecords, maxBytes, map[], 1;
      tenants := new TenantTable();
    }

    /** The one place the live set changes. A write is refused for quota exactly when
        the records it would leave live do not fit. */
    method AppendAndHash(rec: Record) returns (st: Status)
      requires Valid() && SameOwner(live, rec) && rec.id < next
      modifies this`live, tenants
      ensures Valid()
      ensures live == if st == Okay then After(old(live), rec) else old(live)
      ensures st == QuotaExceeded <==>
              Encodable(rec) && rec.agent.Some? && !Fits(After(old(live), rec), rec.agent.value, maxRecords, maxBytes)
      ensures st == Okay <==>
              && Encodable(rec) && |Print(rec)| <= MAX_FRAME
              && (rec.agent.Some? ==> Fits(After(old(live), rec), rec.agent.value, maxRecords, maxBytes))
      ensures st in {Okay, Internal, QuotaExceeded}
      ensures rec.deleted ==> st != QuotaExceeded
    {
      hide Print, CountOf, BytesOf, Encodable, EntryOf, Fits, OnePerName;
      if !Encodable(rec) {
        return Internal;
      }
      ghost var was, table := live, tenants.t;
      var len := |Print(rec)|;
      var dRecords, dBytes := 0, 0;
      if rec.agent.Some? {
        var ns := rec.agent.value;
        var priorLive := rec.id in live;
        var priorBytes := if priorLive then |Print(live[rec.id])| else 0;
        dRecords := (if rec.deleted then 0 else 1) - (if priorLive then 1 else 0);
        dBytes := (if rec.deleted then 0 else len) - priorBytes;
        ExceedsExactly(live, rec, ns, maxRecords, maxBytes);
        if rec.deleted {
          DeleteFits(live, rec, ns, maxRecords, maxBytes);
        }
        assert EntryOf(table, ns) == Tenant(ns, CountOf(live, ns), BytesOf(live, ns));
        var exceed := tenants.WouldExceed(ns, if dRecords > 0 then dRecords else 0,
                                          if dBytes > 0 then dBytes else 0, maxRecords, maxBytes);
        if exceed {
          return QuotaExceeded;
        }
        NotBelowZero(live, rec, ns);
      }
      if len > MAX_FRAME {
        return Internal;
      }
      live := After(live, rec);
      if rec.agent.Some? && (dRecords != 0 || dBytes != 0) {
        tenants.Adjust(rec.agent.value, dRecords, dBytes);
      }
      ChargedAgrees(table, was, rec, tenants.t);
      AllStillFit(was, rec, maxRecords, maxBytes);
      st := Okay;
    }

    method Insert(draft: Record, now: nat) returns (st: Status, id: nat)
      requires Valid()
      modifies this, tenants
      ensures Valid() && id == old(next) && next == old(next) + 1
      ensures var rec := draft.(id := id, created := now, updated := now, deleted := false);
              && live == (if st == Okay then old(live)[id := rec] else old(live))
              && Outcome(old(live), rec, maxRecords, maxBytes, st)
    {
      hide Fits, Encodable, CountOf, BytesOf;
      id := next;
      next := next + 1;
      st := AppendAndHash(draft.(id := id, created := now, updated := now, deleted := false));
    }

    method Update(id: nat, p: Patch, caller: Option<Str>, now: nat) returns (st: Status)
      requires Valid()
      modifies this`live, tenants
      ensures Valid()
      ensures st == NotFound <==> id !in old(live) || Denied(caller, old(live)[id])
      ensures st == Immutable <==>
              id in old(live) && !Denied(caller, old(live)[id]) && old(live)[id].memory != MEM_SEMANTIC
      ensures st !in {NotFound, Immutable} ==>
              Outcome(old(live), Patched(old(live)[id], p, now), maxRecords, maxBytes, st)
              && live == if st == Okay then old(live)[id := Patched(old(live)[id], p, now)] else old(live)
      ensures st in {NotFound, Immutable} ==> live == old(live)
    {
      hide Fits, Encodable, CountOf, BytesOf;
      if id !in live || Denied(caller, live[id]) {
        return NotFound;
      }
      if live[id].memory != MEM_SEMANTIC {
        return Immutable;
      }
      st := AppendAndHash(Patched(live[id], p, now));
    }

    method Relate(from: nat, to: nat, kind: Option<Str>, caller: Option<Str>, now: nat) returns (st: Status)
      requires Valid()
      modifies this`live, tenants
      ensures Valid()
      ensures st == Invalid <==> from == to || (kind.Some? && |kind.value| > MAX_KIND_LEN)
      ensures st == NotFound <==>
                st != Invalid && !(Reachable(old(live), caller, from) && Reachable(old(live), caller, to))
      ensures st in {Invalid, NotFound} ==> live == old(live)
      ensures st !in {Invalid, NotFound} ==>
              var r := old(live)[from];
              if HasRel(r.rels, to, kind) then st == Okay && live == old(live)
              else if |r.rels| >= MAX_RELATIONSHIPS then st == QuotaExceeded && live == old(live)
              else
                var r' := r.(rels := r.rels + [Relationship(from, to, kind)], updated := now);
                Outcome(old(live), r', maxRecords, maxBytes, st)
                && live == if st == Okay then old(live)[from := r'] else old(live)
    {
      hide Fits, Encodable, CountOf, BytesOf;
      if from == to || (kind.Some? && |kind.value| > MAX_KIND_LEN) {
        return Invalid;
      }
      if from !in live || Denied(caller, live[from]) {
        return NotFound;
      }
      if to !in live || Denied(caller, live[to]) {
        return NotFound;
      }
      var r := live[from];
      for i := 0 to |r.rels|
        invariant forall j :: 0 <= j < i ==> !(r.rels[j].to == to && r.rels[j].kind == kind)
      {
        if r.rels[i].to == to && r.rels[i].kind == kind {
          return Okay;
        }
      }
      if |r.rels| >= MAX_RELATIONSHIPS {
        return QuotaExceeded;
      }
      st := AppendAndHash(r.(rels := r.rels + [Relationship(from, to, kind)], updated := now));
    }

    /** Never refused for quota. */
    method Delete(id: nat, caller: Option<Str>, now: nat) returns (st: Status)
      requires Valid()
      modifies this`live, tenants
      ensures Valid() && st != QuotaExceeded
      ensures st == NotFound <==> id !in old(live) || Denied(caller, old(live)[id])
      ensures live == if st == Okay then old(live) - {id} else old(live)
    {
      hide Fits, Encodable, CountOf, BytesOf;
      if id !in live || Denied(caller, live[id]) {
        return NotFound;
      }
      st := AppendAndHash(live[id].(deleted := true, updated := now));
    }
  }
}
