/** The secondary indexes against the log: what the primary's write paths maintain
    step by step, and what a replica rebuilds frame by frame, is one function of
    the log. */
module IndexAgreement {
  import opened Facts

  /** A record version, with the fields the indexes are derived from. */
  datatype Rec = Rec(id: nat, ns: Option<string>, semantic: bool, created: nat, tags: seq<string>,
                     fact: Option<Triple>, rels: seq<Rel>, deleted: bool)

  datatype Edge = Edge(src: nat, dst: nat, kind: string)

  datatype Indexes = Indexes(
    hash: map<nat, Rec>,              // the latest version of each id
    time: set<(nat, nat)>,            // (created, id)
    tags: set<(string, nat)>,
    facts: set<(Triple, nat)>,
    edges: set<Edge>)

  predicate Live(h: map<nat, Rec>, id: nat) { id in h && !h[id].deleted }

  // What one version contributes.

  function TagsOf(r: Rec): set<(string, nat)> { set t | t in r.tags :: (t, r.id) }

  function FactsOf(r: Rec): set<(Triple, nat)> { if r.fact.Some? then {(r.fact.value, r.id)} else {} }

  function EdgesOf(r: Rec): set<Edge> { set rel | rel in r.rels :: Edge(r.id, rel.to, rel.kind) }

  // ----- the function of the log ----------------------------------------------------

  /** An edge is indexed iff its source's latest version lists it and both ends are live. */
  ghost function Derived(h: map<nat, Rec>): Indexes
  {
    Indexes(h,
            set id | id in h && Live(h, id) :: (h[id].created, id),
            set id, t | id in h && Live(h, id) && t in h[id].tags :: (t, id),
            set id | id in h && Live(h, id) && h[id].fact.Some? :: (h[id].fact.value, id),
            set id, rel | id in h && Live(h, id) && rel in h[id].rels && Live(h, rel.to) :: Edge(id, rel.to, rel.kind))
  }

  function LatestMap(log: seq<Rec>): map<nat, Rec>
  {
    if log == [] then map[] else LatestMap(log[..|log| - 1])[log[|log| - 1].id := log[|log| - 1]]
  }

  ghost function IndexOf(log: seq<Rec>): Indexes { Derived(LatestMap(log)) }

  /** The map's keys name their own records. */
  ghost predicate Keyed(h: map<nat, Rec>) { forall id :: id in h ==> h[id].id == id }

  lemma {:induction false} LatestKeyed(log: seq<Rec>)
    ensures Keyed(LatestMap(log))
  {
    if log != [] {
      LatestKeyed(log[..|log| - 1]);
    }
  }

  // ----- db_replica_apply --------------------------------------------------------------

  function Unindexed(x: Indexes, p: Rec): Indexes
  {
    x.(time := x.time - {(p.created, p.id)}, tags := x.tags - TagsOf(p), facts := x.facts - FactsOf(p),
        edges := x.edges - EdgesOf(p))
  }

  /** The outgoing edges whose target the replica knows to be live. */
  function LiveEdgesOf(h: map<nat, Rec>, r: Rec): set<Edge>
  {
    set rel | rel in r.rels && Live(h, rel.to) :: Edge(r.id, rel.to, rel.kind)
  }

  function ReplicaApply(x: Indexes, r: Rec): Indexes
  {
    var y := if Live(x.hash, r.id) then Unindexed(x, x.hash[r.id]) else x;
    var z := y.(hash := y.hash[r.id := r]);
    if r.deleted then z.(edges := set e | e in z.edges && e.dst != r.id)
    else z.(time := z.time + {(r.created, r.id)}, tags := z.tags + TagsOf(r), facts := z.facts + FactsOf(r),
            edges := z.edges + LiveEdgesOf(z.hash, r))
  }

  /** Some other live record lists `id` as a target. */
  ghost predicate ListedByOther(h: map<nat, Rec>, id: nat)
  {
    exists src, rel :: src in h && src != id && Live(h, src) && rel in h[src].rels && rel.to == id
  }

  /** The frame does not bring to life an id some live record already points at. */
  ghost predicate TargetsPrecede(h: map<nat, Rec>, r: Rec)
  {
    r.deleted || Live(h, r.id) || !ListedByOther(h, r.id)
  }

  // Membership, component by component.

  predicate HasTime(h: map<nat, Rec>, e: (nat, nat)) { Live(h, e.1) && h[e.1].created == e.0 }

  predicate HasTag(h: map<nat, Rec>, e: (string, nat)) { Live(h, e.1) && e.0 in h[e.1].tags }

  predicate HasFact(h: map<nat, Rec>, e: (Triple, nat)) { Live(h, e.1) && h[e.1].fact == Some(e.0) }

  predicate HasEdge(h: map<nat, Rec>, e: Edge)
  {
    Live(h, e.src) && Rel(e.dst, e.kind) in h[e.src].rels && Live(h, e.dst)
  }

  lemma DerivedMeans(h: map<nat, Rec>)
    ensures Derived(h).hash == h
    ensures forall e :: e in Derived(h).time <==> HasTime(h, e)
    ensures forall e :: e in Derived(h).tags <==> HasTag(h, e)
    ensures forall e :: e in Derived(h).facts <==> HasFact(h, e)
    ensures forall e :: e in Derived(h).edges <==> HasEdge(h, e)
  {
  }

  lemma EdgesOfMeans(r: Rec)
    ensures forall e :: e in EdgesOf(r) <==> e.src == r.id && Rel(e.dst, e.kind) in r.rels
  {
  }

  lemma LiveEdgesOfMeans(h: map<nat, Rec>, r: Rec)
    ensures forall e :: e in LiveEdgesOf(h, r) <==> e.src == r.id && Rel(e.dst, e.kind) in r.rels && Live(h, e.dst)
  {
  }

  /** The time, tag and fact indexes never depend on the order of frames. */
  lemma ReplicaRows(h: map<nat, Rec>, r: Rec)
    requires Keyed(h)
    ensures var x, d := ReplicaApply(Derived(h), r), Derived(h[r.id := r]);
            x.hash == d.hash && x.time == d.time && x.tags == d.tags && x.facts == d.facts
  {
    hide Derived;
    DerivedMeans(h);
    DerivedMeans(h[r.id := r]);
    var h' := h[r.id := r];
    var x, d := ReplicaApply(Derived(h), r), Derived(h');
    forall e: (nat, nat) ensures e in x.time <==> e in d.time { assert e == (e.0, e.1); }
    forall e: (string, nat) ensures e in x.tags <==> e in d.tags { assert e == (e.0, e.1); }
    forall e: (Triple, nat) ensures e in x.facts <==> e in d.facts { assert e == (e.0, e.1); }
  }

  /** What the replica's edge set holds after a frame. */
  lemma ReplicaEdges(h: map<nat, Rec>, r: Rec, e: Edge)
    requires Keyed(h)
    ensures e in ReplicaApply(Derived(h), r).edges <==>
            if r.deleted then HasEdge(h, e) && e.src != r.id && e.dst != r.id
            else if e.src == r.id then HasEdge(h[r.id := r], e)
            else HasEdge(h, e)
  {
    hide Derived, EdgesOf, LiveEdgesOf, FactsOf, TagsOf;
    DerivedMeans(h);
    if Live(h, r.id) { EdgesOfMeans(h[r.id]); }
    LiveEdgesOfMeans(h[r.id := r], r);
  }

  lemma ListingFound(h: map<nat, Rec>, e: Edge)
    ensures Live(h, e.src) && e.src != e.dst && Rel(e.dst, e.kind) in h[e.src].rels ==> ListedByOther(h, e.dst)
  {
  }

  /** The exact condition for one frame: the replica's indexes stay the function of
      its log iff the frame does not revive an id that live records already list. */
  lemma ReplicaFrameExactly(h: map<nat, Rec>, r: Rec)
    requires Keyed(h)
    ensures ReplicaApply(Derived(h), r) == Derived(h[r.id := r]) <==> TargetsPrecede(h, r)
  {
    hide Derived, ReplicaApply;
    var h' := h[r.id := r];
    var x, d := ReplicaApply(Derived(h), r), Derived(h');
    ReplicaRows(h, r);
    DerivedMeans(h');
    if TargetsPrecede(h, r) {
      forall e ensures e in x.edges <==> e in d.edges {
        ReplicaEdges(h, r, e);
        ListingFound(h, e);
      }
      assert x.edges == d.edges;
    } else {
      var src, rel :| src in h && src != r.id && Live(h, src) && rel in h[src].rels && rel.to == r.id;
      var e := Edge(src, r.id, rel.kind);
      assert rel == Rel(e.dst, e.kind);
      ReplicaEdges(h, r, e);
      assert e in d.edges && e !in x.edges;
    }
  }

  // ----- replaying a log ----------------------------------------------------------------

  ghost function Replay(log: seq<Rec>): Indexes
  {
    if log == [] then Derived(map[]) else ReplicaApply(Replay(log[..|log| - 1]), log[|log| - 1])
  }

  /** Every frame of the log meets the condition when its turn comes. */
  ghost predicate Ordered(log: seq<Rec>)
  {
    forall i :: 0 <= i < |log| ==> TargetsPrecede(LatestMap(log[..i]), log[i])
  }

  /** A replica that applies such a log frame by frame ends with the indexes the
      whole log determines. */
  lemma {:induction false} ReplayAgrees(log: seq<Rec>)
    requires Ordered(log)
    ensures Replay(log) == IndexOf(log)
  {
    if log != [] {
      var front, last := log[..|log| - 1], log[|log| - 1];
      forall i | 0 <= i < |front| ensures TargetsPrecede(LatestMap(front[..i]), front[i]) {
        assert front[..i] == log[..i];
      }
      ReplayAgrees(front);
      LatestKeyed(front);
      ReplicaFrameExactly(LatestMap(front), last);
    }
  }

  // A log as compaction leaves it: one live version of each id, in bucket order.

  ghost predicate Compacted(log: seq<Rec>)
  {
    && (forall i :: 0 <= i < |log| ==> !log[i].deleted)
    && (forall i, j :: 0 <= i < j < |log| ==> log[i].id != log[j].id)
  }

  /** No frame lists the id of a frame after it. */
  ghost predicate TargetsFirst(log: seq<Rec>)
  {
    forall i, j :: 0 <= i < j < |log| ==> !Lists(log[i], log[j].id)
  }

  ghost predicate Lists(r: Rec, id: nat) { exists rel :: rel in r.rels && rel.to == id }

  lemma CompactedPrefix(log: seq<Rec>, n: nat)
    requires Compacted(log) && n <= |log|
    ensures Compacted(log[..n])
  {
  }

  /** Each frame is its id's latest version, and there are no others. */
  lemma {:induction false} CompactedLatest(log: seq<Rec>)
    requires Compacted(log)
    ensures forall i :: 0 <= i < |log| ==> log[i].id in LatestMap(log) && LatestMap(log)[log[i].id] == log[i]
    ensures forall id :: id in LatestMap(log) ==> exists i :: 0 <= i < |log| && log[i].id == id
  {
    if log != [] {
      var front, last := log[..|log| - 1], log[|log| - 1];
      CompactedPrefix(log, |log| - 1);
      CompactedLatest(front);
      forall i | 0 <= i < |log| ensures log[i].id in LatestMap(log) && LatestMap(log)[log[i].id] == log[i] {
        if i < |front| {
          assert front[i] == log[i];
        }
      }
      forall id | id in LatestMap(log) ensures exists i :: 0 <= i < |log| && log[i].id == id {
        if id in LatestMap(front) {
          var i :| 0 <= i < |front| && front[i].id == id;
          assert log[i].id == id;
        } else {
          assert log[|log| - 1].id == id;
        }
      }
    }
  }

  lemma LastIsFresh(log: seq<Rec>)
    requires Compacted(log) && log != []
    ensures !log[|log| - 1].deleted && log[|log| - 1].id !in LatestMap(log[..|log| - 1])
  {
    CompactedPrefix(log, |log| - 1);
    CompactedLatest(log[..|log| - 1]);
  }

  lemma FirstIsOrdered(log: seq<Rec>)
    requires Compacted(log) && TargetsFirst(log)
    ensures Ordered(log)
  {
    forall j | 0 <= j < |log| ensures TargetsPrecede(LatestMap(log[..j]), log[j]) {
      var h := LatestMap(log[..j]);
      CompactedPrefix(log, j);
      CompactedLatest(log[..j]);
      forall src, rel | src in h && src != log[j].id && Live(h, src) && rel in h[src].rels ensures rel.to != log[j].id {
        var i :| 0 <= i < j && log[..j][i].id == src;
        assert h[src] == log[i] && !Lists(log[i], log[j].id);
      }
    }
  }

  lemma FreshFrame(x: Indexes, r: Rec)
    requires !Live(x.hash, r.id) && !r.deleted
    ensures var h := x.hash[r.id := r];
            ReplicaApply(x, r).hash == h && ReplicaApply(x, r).edges == x.edges + LiveEdgesOf(h, r)
  {
  }

  /** A replica keeps an edge only if its target was there before it. */
  lemma {:induction false} ReplayKeeps(log: seq<Rec>, e: Edge)
    requires Compacted(log)
    ensures Replay(log).hash == LatestMap(log)
    ensures e in Replay(log).edges ==>
              exists i, j :: 0 <= j <= i < |log| && log[i].id == e.src && log[j].id == e.dst
  {
    hide ReplicaApply, Derived, LiveEdgesOf, Compacted;
    if log == [] {
      DerivedMeans(map[]);
    } else {
      var front, last := log[..|log| - 1], log[|log| - 1];
      CompactedPrefix(log, |log| - 1);
      ReplayKeeps(front, e);
      CompactedLatest(front);
      CompactedLatest(log);
      LastIsFresh(log);
      FreshFrame(Replay(front), last);
      if e in Replay(front).edges {
        var i, j :| 0 <= j <= i < |front| && front[i].id == e.src && front[j].id == e.dst;
        assert log[i].id == e.src && log[j].id == e.dst;
      } else if e in Replay(log).edges {
        LiveEdgesOfMeans(LatestMap(log), last);
        assert e.src == last.id && e.dst in LatestMap(log);
        var j :| 0 <= j < |log| && log[j].id == e.dst;
        assert log[|log| - 1].id == e.src;
      }
    }
  }

  /** The exact condition for a compacted log: it replays to the indexes it determines
      iff no frame lists the id of one that comes after it. */
  lemma CompactedExactly(log: seq<Rec>)
    requires Compacted(log)
    ensures Replay(log) == IndexOf(log) <==> TargetsFirst(log)
  {
    hide Replay, Derived;
    if TargetsFirst(log) {
      FirstIsOrdered(log);
      ReplayAgrees(log);
    } else {
      var i, j :| 0 <= i < j < |log| && Lists(log[i], log[j].id);
      var rel :| rel in log[i].rels && rel.to == log[j].id;
      var e := Edge(log[i].id, log[j].id, rel.kind);
      var h := LatestMap(log);
      CompactedLatest(log);
      assert h[e.src] == log[i] && h[e.dst] == log[j] && rel == Rel(e.dst, e.kind);
      DerivedMeans(h);
      assert e in IndexOf(log).edges;
      ReplayKeeps(log, e);
    }
  }

  lemma TwoFrames(x: Rec, y: Rec)
    ensures LatestMap([x, y]) == map[x.id := x][y.id := y]
  {
    assert [x, y][..1] == [x] && [x][..0] == [];
    assert LatestMap([x]) == map[x.id := x];
  }

  const Pointed := Rec(1, None, true, 0, [], None, [], false)
  const Pointing := Rec(2, None, true, 0, [], None, [Rel(1, "k")], false)

  /** Bucket order need not be that order: the edge 2 -> 1 of a two-record log is lost
      when record 2 comes first. */
  lemma CompactedOrderMayDiffer()
    ensures LatestMap([Pointed, Pointing]) == LatestMap([Pointing, Pointed])
    ensures Replay([Pointed, Pointing]) == IndexOf([Pointed, Pointing])
    ensures Replay([Pointing, Pointed]) != IndexOf([Pointing, Pointed])
  {
    hide Replay, IndexOf, LatestMap;
    CompactedExactly([Pointed, Pointing]);
    CompactedExactly([Pointing, Pointed]);
    TwoFrames(Pointed, Pointing);
    TwoFrames(Pointing, Pointed);
    assert Pointing.rels[0] == Rel(1, "k");
    assert Lists([Pointing, Pointed][0], [Pointing, Pointed][1].id);
  }

  // ----- the primary's incremental maintenance -------------------------------------------

  lemma InsertIndexes(h: map<nat, Rec>, r: Rec)
    requires Keyed(h) && r.id !in h && !r.deleted && r.rels == [] && !ListedByOther(h, r.id)
    ensures var d := Derived(h);
            Derived(h[r.id := r]) == Indexes(h[r.id := r], d.time + {(r.created, r.id)}, d.tags + TagsOf(r),
                d.facts + FactsOf(r), d.edges)
  {
    hide Derived;
    DerivedMeans(h);
    DerivedMeans(h[r.id := r]);
    var d, d' := Derived(h), Derived(h[r.id := r]);
    forall e: (nat, nat) ensures e in d'.time <==> e in d.time + {(r.created, r.id)} { assert e == (e.0, e.1); }
    forall e: (string, nat) ensures e in d'.tags <==> e in d.tags + TagsOf(r) { assert e == (e.0, e.1); }
    forall e: (Triple, nat) ensures e in d'.facts <==> e in d.facts + FactsOf(r) { assert e == (e.0, e.1); }
    forall e ensures e in d'.edges <==> e in d.edges {
      ListingFound(h, e);
    }
  }

  /** New tags, and a fact only where there was none. */
  lemma UpdateIndexes(h: map<nat, Rec>, r: Rec)
    requires Keyed(h) && Live(h, r.id) && r == h[r.id].(tags := r.tags, fact := r.fact)
    requires h[r.id].fact.Some? ==> r.fact == h[r.id].fact
    ensures var d := Derived(h);
            Derived(h[r.id := r]) == Indexes(h[r.id := r], d.time, d.tags - TagsOf(h[r.id]) + TagsOf(r),
                d.facts + FactsOf(r), d.edges)
  {
    hide Derived;
    DerivedMeans(h);
    DerivedMeans(h[r.id := r]);
    var d, d' := Derived(h), Derived(h[r.id := r]);
    forall e: (string, nat) ensures e in d'.tags <==>
        e in d.tags - TagsOf(h[r.id]) + TagsOf(r) { assert e == (e.0, e.1); }
    forall e: (Triple, nat) ensures e in d'.facts <==> e in d.facts + FactsOf(r) { assert e == (e.0, e.1); }
    assert d'.time == d.time;
    assert d'.edges == d.edges;
  }

  lemma RelateIndexes(h: map<nat, Rec>, id: nat, rel: Rel)
    requires Keyed(h) && Live(h, id) && Live(h, rel.to)
    ensures var d, r := Derived(h), h[id].(rels := h[id].rels + [rel]);
            Derived(h[id := r]) == Indexes(h[id := r], d.time, d.tags, d.facts, d.edges + {Edge(id, rel.to, rel.kind)})
  {
    hide Derived;
    var r := h[id].(rels := h[id].rels + [rel]);
    DerivedMeans(h);
    DerivedMeans(h[id := r]);
    var d, d' := Derived(h), Derived(h[id := r]);
    assert d'.time == d.time && d'.tags == d.tags && d'.facts == d.facts;
    assert d'.edges == d.edges + {Edge(id, rel.to, rel.kind)};
  }

  lemma DeleteIndexes(h: map<nat, Rec>, id: nat)
    requires Keyed(h) && Live(h, id)
    ensures var d, p := Derived(h), h[id];
            Derived(h[id := p.(deleted := true)]) ==
            Indexes(h[id := p.(deleted := true)], d.time - {(p.created, id)}, d.tags - TagsOf(p), d.facts - FactsOf(p),
                    set e | e in d.edges - EdgesOf(p) && e.dst != id)
  {
    hide Derived, EdgesOf;
    var p := h[id];
    var h' := h[id := p.(deleted := true)];
    DerivedMeans(h);
    DerivedMeans(h');
    EdgesOfMeans(p);
    var d, d' := Derived(h), Derived(h');
    forall e: (nat, nat) ensures e in d'.time <==> e in d.time - {(p.created, id)} { assert e == (e.0, e.1); }
    forall e: (string, nat) ensures e in d'.tags <==> e in d.tags - TagsOf(p) { assert e == (e.0, e.1); }
    forall e: (Triple, nat) ensures e in d'.facts <==> e in d.facts - FactsOf(p) { assert e == (e.0, e.1); }
    assert d'.edges == set e | e in d.edges - EdgesOf(p) && e.dst != id;
  }

  // ----- the write paths --------------------------------------------------------------------

  datatype Status = Ok | NotFound | InvalidRequest | Immutable | Refused

  predicate Denies(ns: Option<string>, r: Rec) { ns.Some? && r.ns != ns }

  /** Ids below `nextId` only, and every listed target was once inserted. */
  ghost predicate Allocated(h: map<nat, Rec>, nextId: nat)
  {
    forall id :: id in h ==> id < nextId && forall rel :: rel in h[id].rels ==> rel.to < nextId
  }

  lemma AppendLatest(log: seq<Rec>, r: Rec)
    ensures LatestMap(log + [r]) == LatestMap(log)[r.id := r]
  {
  }

  lemma AppendOrdered(log: seq<Rec>, r: Rec)
    requires Ordered(log) && TargetsPrecede(LatestMap(log), r)
    ensures Ordered(log + [r])
  {
    var log' := log + [r];
    forall i | 0 <= i < |log'| ensures TargetsPrecede(LatestMap(log'[..i]), log'[i]) {
      assert log'[..i] == if i < |log| then log[..i] else log;
    }
  }

  class Db {
    var log: seq<Rec>
    var nextId: nat
    var hash: map<nat, Rec>
    var time: set<(nat, nat)>
    var tags: set<(string, nat)>
    var facts: set<(Triple, nat)>
    var edges: set<Edge>

    ghost function View(): Indexes
      reads this
    {
      Indexes(hash, time, tags, facts, edges)
    }

    /** The indexes are the function of the log, and so are a replica's. */
    ghost predicate Valid()
      reads this
    {
      hash == LatestMap(log) && View() == IndexOf(log) && Ordered(log) && Allocated(hash, nextId)
    }

    constructor ()
      ensures Valid() && log == []
    {
      log, nextId, hash := [], 1, map[];
      time, tags, facts, edges := {}, {}, {}, {};
    }

    /** A replica that received every frame so far has these very indexes. */
    lemma ReplicaEqual()
      requires Valid()
      ensures Replay(log) == View()
    {
      ReplayAgrees(log);
    }

    method AddTags(r: Rec)
      modifies this`tags
      ensures tags == old(tags) + TagsOf(r)
    {
      for i := 0 to |r.tags|
        invariant tags == old(tags) + set t | t in r.tags[..i] :: (t, r.id)
      {
        tags := tags + {(r.tags[i], r.id)};
        assert r.tags[..i + 1] == r.tags[..i] + [r.tags[i]];
      }
      assert r.tags[..|r.tags|] == r.tags;
    }

    method RemoveTags(r: Rec)
      modifies this`tags
      ensures tags == old(tags) - TagsOf(r)
    {
      for i := 0 to |r.tags|
        invariant tags == old(tags) - set t | t in r.tags[..i] :: (t, r.id)
      {
        tags := tags - {(r.tags[i], r.id)};
        assert r.tags[..i + 1] == r.tags[..i] + [r.tags[i]];
      }
      assert r.tags[..|r.tags|] == r.tags;
    }

    method RemoveEdges(r: Rec)
      modifies this`edges
      ensures edges == old(edges) - EdgesOf(r)
    {
      for i := 0 to |r.rels|
        invariant edges == old(edges) - set rel | rel in r.rels[..i] :: Edge(r.id, rel.to, rel.kind)
      {
        edges := edges - {Edge(r.id, r.rels[i].to, r.rels[i].kind)};
        assert r.rels[..i + 1] == r.rels[..i] + [r.rels[i]];
      }
      assert r.rels[..|r.rels|] == r.rels;
    }

    method AddLiveEdges(r: Rec)
      modifies this`edges
      ensures edges == old(edges) + LiveEdgesOf(hash, r)
    {
      for i := 0 to |r.rels|
        invariant edges == old(edges) + set rel | rel in r.rels[..i]
                  && Live(hash, rel.to) :: Edge(r.id, rel.to, rel.kind)
      {
        if r.rels[i].to in hash && !hash[r.rels[i].to].deleted {
          edges := edges + {Edge(r.id, r.rels[i].to, r.rels[i].kind)};
        }
        assert r.rels[..i + 1] == r.rels[..i] + [r.rels[i]];
      }
      assert r.rels[..|r.rels|] == r.rels;
    }

    /** db_replica_apply: drop the prior live version's entries, then index this one. */
    method ApplyFrame(r: Rec)
      modifies this
      ensures View() == ReplicaApply(old(View()), r)
      ensures log == old(log) + [r] && nextId == if r.id + 1 > old(nextId) then r.id + 1 else old(nextId)
    {
      hide TagsOf, FactsOf, EdgesOf, LiveEdgesOf;
      if r.id in hash && !hash[r.id].deleted {
        var p := hash[r.id];
        time := time - {(p.created, p.id)};
        RemoveTags(p);
        RemoveEdges(p);
        facts := facts - FactsOf(p);
      }
      Append(r);
      if !r.deleted {
        time := time + {(r.created, r.id)};
        AddTags(r);
        AddLiveEdges(r);
        facts := facts + FactsOf(r);
      } else {
        edges := set e | e in edges && e.dst != r.id;
      }
      if r.id + 1 > nextId {
        nextId := r.id + 1;
      }
    }

    /** append_and_hash. */
    method Append(r: Rec)
      modifies this`log, this`hash
      ensures log == old(log) + [r] && hash == old(hash)[r.id := r]
    {
      log := log + [r];
      hash := hash[r.id := r];
    }

    /** qe_insert: a fresh id; an insert carries no relationships. */
    method Insert(ns: Option<string>, semantic: bool, created: nat, recTags: seq<string>, fact: Option<Triple>)
        returns (r: Rec)
      requires Valid()
      modifies this
      ensures Valid() && log == old(log) + [r]
      ensures r == Rec(old(nextId), ns, semantic, created, recTags, fact, [], false)
    {
      hide Derived, TagsOf, FactsOf;
      r := Rec(nextId, ns, semantic, created, recTags, fact, [], false);
      LatestKeyed(log);
      InsertIndexes(hash, r);
      AppendLatest(log, r);
      AppendOrdered(log, r);
      nextId := nextId + 1;
      Append(r);
      time := time + {(r.created, r.id)};
      AddTags(r);
      facts := facts + FactsOf(r);
    }

    /** qe_update: retag, and adopt a fact where none exists. `admitted` is the
        outcome of validation and quota. */
    method Update(id: nat, newTags: Option<seq<string>>, adopt: Option<Triple>, ns: Option<string>, admitted: bool)
        returns (st: Status)
      requires Valid()
      modifies this
      ensures Valid() && nextId == old(nextId)
      ensures st == Ok <==> admitted && old(Live(hash, id) && !Denies(ns, hash[id]) && hash[id].semantic
                && (adopt.Some? ==> hash[id].fact == None))
      ensures log == if st != Ok then old(log)
                     else old(log) + [old(hash[id]).(tags := if newTags.Some? then newTags.value
                         else old(hash[id]).tags,
                                                     fact := if adopt.Some? then adopt else old(hash[id]).fact)]
    {
      hide Derived, TagsOf, FactsOf, Ordered, LatestMap;
      if id !in hash || hash[id].deleted || Denies(ns, hash[id]) {
        return NotFound;
      }
      if !hash[id].semantic {
        return Immutable;
      }
      if adopt.Some? && hash[id].fact.Some? {
        return InvalidRequest;
      }
      if !admitted {
        return Refused;
      }
      var cur := hash[id];
      var r := cur.(tags := if newTags.Some? then newTags.value else cur.tags, fact := if adopt.Some? then adopt
          else cur.fact);
      LatestKeyed(log);
      UpdateIndexes(hash, r);
      AppendLatest(log, r);
      AppendOrdered(log, r);
      Append(r);
      if newTags.Some? {
        RemoveTags(cur);
        AddTags(r);
      } else {
        TagsKept(old(hash), cur, r);
      }
      if adopt.Some? {
        facts := facts + FactsOf(r);
      } else {
        FactKept(old(hash), cur, r);
      }
      st := Ok;
    }

    /** qe_relate: both ends live (and owned by a namespaced caller), idempotent,
        capped. The edge is indexed after the append commits. */
    method Relate(src: nat, dst: nat, kind: string, ns: Option<string>, admitted: bool) returns (st: Status)
      requires Valid()
      modifies this
      ensures Valid() && nextId == old(nextId)
      ensures st == Ok <==>
                && src != dst && |kind| <= MAX_KIND_LEN
                && old(Live(hash, src) && Live(hash, dst) && !Denies(ns, hash[src]) && !Denies(ns, hash[dst]))
                && (old(Rel(dst, kind) in hash[src].rels) || (admitted && old(|hash[src].rels|) < MAX_RELATIONSHIPS))
      ensures st == Ok ==> Edge(src, dst, kind) in edges
      ensures log == if st == Ok && old(Rel(dst, kind) !in hash[src].rels)
                     then old(log) + [old(hash[src]).(rels := old(hash[src]).rels + [Rel(dst, kind)])] else old(log)
    {
      hide Derived, Ordered, LatestMap;
      if src == dst || |kind| > MAX_KIND_LEN {
        return InvalidRequest;
      }
      if src !in hash || hash[src].deleted || Denies(ns, hash[src]) {
        return NotFound;
      }
      if dst !in hash || hash[dst].deleted || Denies(ns, hash[dst]) {
        return NotFound;
      }
      var cur, rel := hash[src], Rel(dst, kind);
      LatestKeyed(log);
      if rel in cur.rels {
        DerivedMeans(hash);
        assert HasEdge(hash, Edge(src, dst, kind));
        return Ok;
      }
      if |cur.rels| >= MAX_RELATIONSHIPS || !admitted {
        return Refused;
      }
      var r := cur.(rels := cur.rels + [rel]);
      RelateIndexes(hash, src, rel);
      AppendLatest(log, r);
      AppendOrdered(log, r);
      Append(r);
      edges := edges + {Edge(src, dst, kind)};
      st := Ok;
    }

    /** qe_delete: drop every index entry of the record, then every edge into it. */
    method Delete(id: nat, ns: Option<string>) returns (st: Status)
      requires Valid()
      modifies this
      ensures Valid() && nextId == old(nextId)
      ensures st == Ok <==> old(Live(hash, id) && !Denies(ns, hash[id]))
      ensures log == if st == Ok then old(log) + [old(hash[id]).(deleted := true)] else old(log)
      ensures st == Ok ==> forall e :: e in edges ==> e.src != id && e.dst != id
    {
      hide Derived, Ordered, LatestMap, TagsOf, FactsOf, EdgesOf;
      if id !in hash || hash[id].deleted || Denies(ns, hash[id]) {
        return NotFound;
      }
      var cur := hash[id];
      LatestKeyed(log);
      DeleteIndexes(hash, id);
      DeleteSevers(hash, id);
      RemoveTags(cur);
      RemoveEdges(cur);
      edges := set e | e in edges && e.dst != id;
      facts := facts - FactsOf(cur);
      time := time - {(cur.created, id)};
      var r := cur.(deleted := true);
      AppendLatest(log, r);
      AppendOrdered(log, r);
      Append(r);
      st := Ok;
    }
  }

  lemma DeleteSevers(h: map<nat, Rec>, id: nat)
    requires Keyed(h) && Live(h, id)
    ensures forall e :: e in Derived(h[id := h[id].(deleted := true)]).edges ==> e.src != id && e.dst != id
  {
  }

  lemma TagsKept(h: map<nat, Rec>, p: Rec, r: Rec)
    requires Keyed(h) && Live(h, p.id) && h[p.id] == p && r.id == p.id && r.tags == p.tags
    ensures Derived(h).tags - TagsOf(p) + TagsOf(r) == Derived(h).tags
  {
  }

  lemma FactKept(h: map<nat, Rec>, p: Rec, r: Rec)
    requires Keyed(h) && Live(h, p.id) && h[p.id] == p && r.id == p.id && r.fact == p.fact
    ensures Derived(h).facts + FactsOf(r) == Derived(h).facts
  {
  }
}
