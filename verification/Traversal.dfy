/** The bounded breadth-first walk over relationships. The result is checked against
    paths: sequences of visible records joined by matching edges. */
module Traversal {
  import opened Facts
  import opened Counting
  import opened Probing
  import opened ProbeTables
  import opened EdgeIndex
  import opened EdgeKinds

  const MAX_NODES := 8192
  const SEEN_SLOTS := 16384

  datatype Relation = Relation(to: nat, kind: Option<string>)

  datatype Record = Record(id: nat, rels: seq<Relation>, agent: Option<string>, deleted: bool, expires: nat)

  datatype Direction = Outgoing | Incoming | Both

  datatype Query = Query(start: nat, depth: nat, agent: Option<string>, dir: Direction, kinds: seq<string>)

  /** A frontier entry: an id, and the edge that reached it. */
  datatype Via = Via(id: nat, from: nat, kind: Option<string>, incoming: bool, uncertain: bool)

  datatype Hop = Hop(rec: Record, depth: nat, via: Via)

  /** What one walk reads; `m` and `names` are the reverse index's contents. */
  datatype World = World(db: map<nat, Record>, m: Postings, names: seq<string>, q: Query, now: nat)

  datatype Outcome = NotReady | Walked(hops: seq<Hop>, capped: bool)

  // ----- the graph a query sees ------------------------------------------------------

  predicate Visible(r: Record, q: Query, now: nat)
  {
    && !r.deleted && !(r.expires != 0 && now >= r.expires)
    && (q.agent.None? || r.agent == q.agent)
  }

  predicate Wanted(kinds: seq<string>, kind: Option<string>)
  {
    kinds == [] || (kind.Some? && kind.value in kinds)
  }

  predicate DbOk(db: map<nat, Record>) { 0 !in db && forall id :: id in db ==> db[id].id == id }

  ghost predicate Shown(w: World, id: nat) { id in w.db && Visible(w.db[id], w.q, w.now) }

  ghost predicate OutEdge(w: World, a: nat, v: Via)
  {
    && w.q.dir != Incoming && a in w.db && v.from == a && !v.incoming && !v.uncertain
    && Relation(v.id, v.kind) in w.db[a].rels && Wanted(w.q.kinds, v.kind)
  }

  ghost predicate InEdge(w: World, a: nat, v: Via)
  {
    && w.q.dir != Outgoing && v.from == a && v.incoming
    && Source(v.id, v.kind, v.uncertain) in SourcesOf(w.names, w.q.kinds, PostsFor(w.m, a))
  }

  function KindText(kind: Option<string>): string { if kind.Some? then kind.value else "" }

  /** A backward step is exactly a true edge towards `a` that answers the query, taken
      the other way; its kind is certain just when it has an id. */
  lemma BackwardIsEdge(w: World, truth: set<TrueEdge>, a: nat, v: Via)
    requires Faithful(truth, w.m, w.names) && NamesOk(w.names) && w.q.dir != Outgoing
    ensures InEdge(w, a, v) <==>
              && v.from == a && v.incoming
              && exists e :: e in truth && e.dst == a && Answers(w.names, w.q.kinds, e.kind)
                     && Source(v.id, v.kind, v.uncertain) == Told(w.names, e)
  {
    hide SourcesOf, KindId, NamesOk, Answers, Faithful;
    FilterExactly(truth, w.m, w.names, w.q.kinds, a, Source(v.id, v.kind, v.uncertain));
  }

  ghost predicate Edge(w: World, a: nat, v: Via) { OutEdge(w, a, v) || InEdge(w, a, v) }

  ghost predicate Linked(w: World, a: nat, b: nat) { exists v: Via :: v.id == b && Edge(w, a, v) }

  /** Visible records within `n` edges of the start, through visible records only. */
  ghost function Reach(w: World, n: nat): set<nat>
  {
    if n == 0 then (set x | x in w.db.Keys && x == w.q.start && Shown(w, x))
    else
      var near := Reach(w, n - 1);
      near + (set x | x in w.db.Keys && Shown(w, x) && exists a :: a in near && Linked(w, a, x))
  }

  ghost function Before(w: World, level: nat): set<nat> { if level == 0 then {} else Reach(w, level - 1) }

  ghost predicate Path(w: World, p: seq<nat>)
  {
    && p != [] && p[0] == w.q.start
    && (forall i :: 0 <= i < |p| ==> Shown(w, p[i]))
    && (forall i :: 0 < i < |p| ==> Linked(w, p[i - 1], p[i]))
  }

  lemma ReachStep(w: World, n: nat, a: nat, x: nat)
    requires a in Reach(w, n) && Linked(w, a, x) && Shown(w, x)
    ensures x in Reach(w, n + 1)
  {
  }

  lemma ReachSplit(w: World, n: nat, x: nat)
    requires n > 0 && x in Reach(w, n) && x !in Reach(w, n - 1)
    ensures Shown(w, x) && exists a :: a in Reach(w, n - 1) && Linked(w, a, x)
  {
  }

  /** A record lies in `Reach` exactly when some path of that many edges ends at it. */
  lemma {:induction false} ReachIsPaths(w: World, n: nat, x: nat)
    ensures x in Reach(w, n) <==> exists p :: Path(w, p) && |p| <= n + 1 && p[|p| - 1] == x
  {
    if x in Reach(w, n) {
      PathTo(w, n, x);
    }
    forall p | Path(w, p) && |p| <= n + 1 && p[|p| - 1] == x ensures x in Reach(w, n) {
      PathEnds(w, p, n);
    }
  }

  lemma {:induction false} PathTo(w: World, n: nat, x: nat)
    requires x in Reach(w, n)
    ensures exists p :: Path(w, p) && |p| <= n + 1 && p[|p| - 1] == x
  {
    hide Reach, Linked, Shown;
    if n == 0 {
      StartReached(w);
      assert Path(w, [x]);
    } else if x in Reach(w, n - 1) {
      PathTo(w, n - 1, x);
    } else {
      hide Path;
      ReachSplit(w, n, x);
      var a :| a in Reach(w, n - 1) && Linked(w, a, x);
      PathTo(w, n - 1, a);
      var p: seq<nat> :| Path(w, p) && |p| <= n && p[|p| - 1] == a;
      PathExtends(w, p, x);
      assert (p + [x])[|p + [x]| - 1] == x;
    }
  }

  lemma PathExtends(w: World, p: seq<nat>, x: nat)
    requires Path(w, p) && Linked(w, p[|p| - 1], x) && Shown(w, x)
    ensures Path(w, p + [x])
  {
    hide Linked, Shown;
  }

  lemma {:induction false} PathEnds(w: World, p: seq<nat>, n: nat)
    requires Path(w, p) && |p| <= n + 1
    ensures p[|p| - 1] in Reach(w, n)
  {
    hide Linked;
    if |p| == 1 {
      ReachGrows(w, 0, n);
    } else {
      hide Reach;
      var front := p[..|p| - 1];
      assert Path(w, front);
      PathEnds(w, front, n - 1);
      ReachStep(w, n - 1, front[|front| - 1], p[|p| - 1]);
    }
  }

  lemma {:induction false} ReachGrows(w: World, i: nat, j: nat)
    requires i <= j
    ensures Reach(w, i) <= Reach(w, j)
    decreases j
  {
    if i < j {
      ReachGrows(w, i, j - 1);
    }
  }

  lemma {:induction false} Saturates(w: World, i: nat, j: nat)
    requires i <= j && Before(w, i + 1) == Before(w, i)
    ensures Reach(w, j) == Reach(w, i)
    decreases j
  {
    if i < j {
      Saturates(w, i, j - 1);
      assert Reach(w, j) == Reach(w, i) by {
        if i > 0 {
          assert Reach(w, i) == Reach(w, i - 1);
        } else {
          assert Reach(w, j - 1) == {};
        }
      }
    }
  }

  // ----- the same graph, read off the records alone -----------------------------------------

  predicate Stored(db: map<nat, Record>, id: nat) { id in db && !db[id].deleted }

  /** The edges the records list between records that are not deleted: what the write
      paths keep in the reverse index. */
  ghost function RecordEdges(db: map<nat, Record>): set<TrueEdge>
  {
    set id, k | id in db.Keys && Stored(db, id) && 0 <= k < |db[id].rels| && Stored(db, db[id].rels[k].to)
      :: TrueEdge(id, db[id].rels[k].to, KindText(db[id].rels[k].kind))
  }

  ghost predicate Indexed(w: World) { NamesOk(w.names) && Faithful(RecordEdges(w.db), w.m, w.names) }

  /** An index kept by the write paths, one operation per edge the records gained or
      lost, answers for the records as long as no shared posting was taken. */
  lemma SafeRunIndexes(ops: seq<Op>, states: seq<State>, n: nat, w: World)
    requires Run(ops, states) && n <= |ops| && AllSafe(ops, states, n)
    requires states[n] == State(w.m, w.names, RecordEdges(w.db))
    ensures Indexed(w)
  {
    hide Faithful, RecordEdges, OpStep, Safe;
    RunFaithful(ops, states, n);
    RunNames(ops, states, n);
    assert FaithfulState(states[n]);
  }

  /** The two directions disagree on two kinds of edge only: one whose kind is the empty
      string, asked for by name, and one that backwards cannot be ruled out. */
  lemma DirectionsDiffer(names: seq<string>, kinds: seq<string>, kind: Option<string>)
    ensures Wanted(kinds, kind) == Answers(names, kinds, KindText(kind)) <==>
              && !(kind == Some("") && "" in kinds)
              && (KindId(names, KindText(kind)) == KIND_UNKNOWN && Unresolved(names, kinds) ==> Wanted(kinds, kind))
  {
  }

  ghost predicate ListsOut(db: map<nat, Record>, q: Query, a: nat, b: nat)
  {
    q.dir != Incoming && a in db
    && exists k :: 0 <= k < |db[a].rels| && db[a].rels[k].to == b && Wanted(q.kinds, db[a].rels[k].kind)
  }

  ghost predicate ListsIn(db: map<nat, Record>, names: seq<string>, q: Query, a: nat, b: nat)
  {
    q.dir != Outgoing && Stored(db, a) && Stored(db, b)
    && exists k :: 0 <= k < |db[b].rels| && db[b].rels[k].to == a
           && Answers(names, q.kinds, KindText(db[b].rels[k].kind))
  }

  /** A walk of the query steps from `a` to `b`: `a` lists the edge, or `b` does. */
  ghost predicate RecordLink(db: map<nat, Record>, names: seq<string>, q: Query, a: nat, b: nat)
  {
    ListsOut(db, q, a, b) || ListsIn(db, names, q, a, b)
  }

  ghost predicate RecordPath(db: map<nat, Record>, names: seq<string>, q: Query, now: nat, p: seq<nat>)
  {
    && p != [] && p[0] == q.start
    && (forall i :: 0 <= i < |p| ==> p[i] in db && Visible(db[p[i]], q, now))
    && (forall i :: 0 < i < |p| ==> RecordLink(db, names, q, p[i - 1], p[i]))
  }

  ghost predicate RecordWithin(db: map<nat, Record>, names: seq<string>, q: Query, now: nat, n: nat, x: nat)
  {
    exists p :: RecordPath(db, names, q, now, p) && |p| <= n + 1 && p[|p| - 1] == x
  }

  lemma OutIsListed(w: World, a: nat, b: nat)
    ensures (exists v: Via :: v.id == b && OutEdge(w, a, v)) <==> ListsOut(w.db, w.q, a, b)
  {
    if v: Via :| v.id == b && OutEdge(w, a, v) {
      var k :| 0 <= k < |w.db[a].rels| && w.db[a].rels[k] == Relation(v.id, v.kind);
    }
    if ListsOut(w.db, w.q, a, b) {
      var k :| 0 <= k < |w.db[a].rels| && w.db[a].rels[k].to == b && Wanted(w.q.kinds, w.db[a].rels[k].kind);
      assert Relation(b, w.db[a].rels[k].kind) == w.db[a].rels[k];
      assert OutEdge(w, a, Via(b, a, w.db[a].rels[k].kind, false, false));
    }
  }

  lemma InIsListed(w: World, a: nat, b: nat)
    requires Indexed(w)
    ensures (exists v: Via :: v.id == b && InEdge(w, a, v)) <==> ListsIn(w.db, w.names, w.q, a, b)
  {
    hide KindId, NamesOk, Faithful, Answers, InEdge;
    if ListsIn(w.db, w.names, w.q, a, b) {
      var k :| 0 <= k < |w.db[b].rels| && w.db[b].rels[k].to == a
               && Answers(w.names, w.q.kinds, KindText(w.db[b].rels[k].kind));
      ListedFound(w, a, b, k);
    }
    if v: Via :| v.id == b && InEdge(w, a, v) {
      FoundListed(w, a, v);
    }
  }

  lemma ListedFound(w: World, a: nat, b: nat, k: nat)
    requires Indexed(w) && w.q.dir != Outgoing && Stored(w.db, a) && Stored(w.db, b)
    requires k < |w.db[b].rels| && w.db[b].rels[k].to == a
    requires Answers(w.names, w.q.kinds, KindText(w.db[b].rels[k].kind))
    ensures exists v: Via :: v.id == b && InEdge(w, a, v)
  {
    hide KindId, NamesOk, Faithful, Answers, InEdge;
    var e := TrueEdge(b, a, KindText(w.db[b].rels[k].kind));
    assert e in RecordEdges(w.db);
    var s := Told(w.names, e);
    var v := Via(b, a, s.kind, true, s.unknown);
    BackwardIsEdge(w, RecordEdges(w.db), a, v);
    assert InEdge(w, a, v);
  }

  lemma FoundListed(w: World, a: nat, v: Via)
    requires Indexed(w) && InEdge(w, a, v)
    ensures ListsIn(w.db, w.names, w.q, a, v.id)
  {
    hide KindId, NamesOk, Faithful, InEdge, Answers;
    assert w.q.dir != Outgoing by { InNeedsDir(w, a, v); }
    BackwardIsEdge(w, RecordEdges(w.db), a, v);
    var e :| e in RecordEdges(w.db) && e.dst == a && Answers(w.names, w.q.kinds, e.kind)
             && Source(v.id, v.kind, v.uncertain) == Told(w.names, e);
    var id, k :| id in w.db.Keys && Stored(w.db, id) && 0 <= k < |w.db[id].rels| && Stored(w.db, w.db[id].rels[k].to)
                 && TrueEdge(id, w.db[id].rels[k].to, KindText(w.db[id].rels[k].kind)) == e;
    assert w.db[v.id].rels[k].to == a;
  }

  lemma InNeedsDir(w: World, a: nat, v: Via)
    requires InEdge(w, a, v)
    ensures w.q.dir != Outgoing
  {
  }

  /** An indexed store links exactly what its records link; a forward walk needs no
      index. */
  lemma LinkedIsRecord(w: World, a: nat, b: nat)
    requires w.q.dir == Outgoing || Indexed(w)
    ensures Linked(w, a, b) <==> RecordLink(w.db, w.names, w.q, a, b)
  {
    hide OutEdge, ListsOut, ListsIn, Indexed;
    OutIsListed(w, a, b);
    if w.q.dir != Outgoing {
      InIsListed(w, a, b);
    }
    LinkedSplits(w, a, b);
    ForwardOnly(w, a, b);
  }

  lemma LinkedSplits(w: World, a: nat, b: nat)
    ensures Linked(w, a, b) <==>
              (exists v: Via :: v.id == b && OutEdge(w, a, v)) || (exists v: Via :: v.id == b && InEdge(w, a, v))
  {
    hide OutEdge, InEdge;
    if v: Via :| v.id == b && OutEdge(w, a, v) {
      assert Edge(w, a, v);
    }
    if v: Via :| v.id == b && InEdge(w, a, v) {
      assert Edge(w, a, v);
    }
  }

  lemma ForwardOnly(w: World, a: nat, b: nat)
    ensures w.q.dir == Outgoing ==> !ListsIn(w.db, w.names, w.q, a, b) && forall v :: !InEdge(w, a, v)
  {
  }

  /** What is within reach, read off the records. */
  lemma ReachIsRecords(w: World, n: nat, x: nat)
    requires w.q.dir == Outgoing || Indexed(w)
    ensures x in Reach(w, n) <==> RecordWithin(w.db, w.names, w.q, w.now, n, x)
  {
    hide Reach, Linked, RecordLink, Indexed;
    ReachIsPaths(w, n, x);
    forall p ensures RecordPath(w.db, w.names, w.q, w.now, p) <==> Path(w, p) {
      forall i | 0 < i < |p| ensures RecordLink(w.db, w.names, w.q, p[i - 1], p[i]) <==> Linked(w, p[i - 1], p[i]) {
        LinkedIsRecord(w, p[i - 1], p[i]);
      }
    }
  }

  // ----- the visited table ------------------------------------------------------------

  /** A slot holding 0 is empty. */
  ghost function Slots(t: seq<nat>): (s: seq<Slot<nat, ()>>)
    ensures |s| == |t|
    ensures forall i :: 0 <= i < |t| ==> s[i] == if t[i] == 0 then Vacant else Taken(t[i], ())
  {
    seq(|t|, i requires 0 <= i < |t| => if t[i] == 0 then Vacant else Taken(t[i], ()))
  }

  predicate NonZero(x: nat) { x != 0 }

  ghost function Marks(t: seq<nat>): nat { Count(t, (x: nat) => NonZero(x)) }

  ghost predicate SeenOk(t: seq<nat>, hash: nat -> nat) { WellFormed(Slots(t), hash) }

  lemma Room(t: seq<nat>)
    requires Marks(t) < |t|
    ensures exists i :: 0 <= i < |t| && t[i] == 0
  {
    if forall i :: 0 <= i < |t| ==> NonZero(t[i]) {
      AllCounted(t, (x: nat) => NonZero(x));
    } else {
      var i :| 0 <= i < |t| && !NonZero(t[i]);
      assert t[i] == 0;
    }
  }

  /** Every slot before step `d` of the path holds some other id. */
  ghost predicate Passed(t: seq<nat>, home: nat, id: nat, d: nat)
    requires home < |t| && d <= |t|
  {
    forall e :: 0 <= e < d ==> t[At(home, e, |t|)] != 0 && t[At(home, e, |t|)] != id
  }

  lemma Mark(t: seq<nat>, hash: nat -> nat, id: nat, d: nat)
    requires SeenOk(t, hash) && d < |t|
    requires var h := Home(hash, id, |t|); Passed(t, h, id, d) && t[At(h, d, |t|)] == 0
    ensures id != 0 ==> id !in t
    ensures var t' := t[At(Home(hash, id, |t|), d, |t|) := id];
            && SeenOk(t', hash) && Marks(t') == Marks(t) + (if id != 0 then 1 else 0)
            && forall x :: x != 0 ==> (x in t' <==> x in t || x == id)
  {
    hide WellFormed, Count;
    var i := At(Home(hash, id, |t|), d, |t|);
    UpdateMembers(t, i, id);
    CountUpdate(t, i, id, (x: nat) => NonZero(x));
    if id == 0 {
      assert t[i := id] == t;
    } else {
      ProbeMiss(Slots(t), hash, id, d);
      AbsentMeans(t, id);
      Place(Slots(t), hash, id, (), d);
      assert Slots(t[i := id]) == Slots(t)[i := Taken(id, ())];
    }
  }

  lemma AbsentMeans(t: seq<nat>, id: nat)
    ensures id != 0 && Absent(Slots(t), id) ==> id !in t
  {
  }

  /** Marks `id`; tells whether it was unmarked. Id 0 is never held, so never found. */
  method SeenInsert(a: array<nat>, hash: nat -> nat, id: nat) returns (added: bool)
    requires SeenOk(a[..], hash) && Marks(a[..]) < a.Length
    modifies a
    ensures SeenOk(a[..], hash)
    ensures added <==> id == 0 || id !in old(a[..])
    ensures forall x :: x != 0 ==> (x in a[..] <==> x in old(a[..]) || x == id)
    ensures Marks(a[..]) == old(Marks(a[..])) + (if added && id != 0 then 1 else 0)
  {
    hide SeenOk, Marks;
    Room(a[..]);
    var home := Home(hash, id, a.Length);
    ghost var t := a[..];
    ghost var hole :| 0 <= hole < |t| && t[hole] == 0;
    ghost var last := Dist(home, hole, a.Length);
    var i := home;
    ghost var d := 0;
    while a[i] != 0
      invariant d <= last && i == At(home, d, a.Length) && a[..] == t
      invariant Passed(t, home, id, d)
      decreases last - d
    {
      if a[i] == id {
        assert t[i] == id;
        return false;
      }
      i, d := (if i + 1 == a.Length then 0 else i + 1), d + 1;
    }
    Mark(t, hash, id, d);
    a[i] := id;
    assert a[..] == t[i := id];
    return true;
  }

  lemma UpdateMembers(t: seq<nat>, i: nat, id: nat)
    requires i < |t| && t[i] == 0
    ensures forall x :: x != 0 ==> (x in t[i := id] <==> x in t || x == id)
  {
    forall x | x != 0 && (x in t || x == id) ensures x in t[i := id] {
      if x in t {
        var j :| 0 <= j < |t| && t[j] == x;
        assert t[i := id][j] == x;
      } else {
        assert t[i := id][i] == x;
      }
    }
    forall x | x != 0 && x in t[i := id] && x != id ensures x in t {
      var j :| 0 <= j < |t| && t[i := id][j] == x;
      assert t[j] == x;
    }
  }

  // ----- what the walk keeps --------------------------------------------------------------

  const ORIGIN := 0

  function StartVia(q: Query): Via { Via(q.start, ORIGIN, None, false, false) }

  /** A returned record: at its shortest distance, reached from one returned earlier. */
  ghost predicate HopOk(w: World, acc: seq<Hop>, i: nat)
    requires i < |acc|
  {
    var h := acc[i];
    && h.via.id in w.db && h.rec == w.db[h.via.id]
    && h.via.id in Reach(w, h.depth) && h.via.id !in Before(w, h.depth)
    && if h.depth == 0 then h.via == StartVia(w.q)
       else Edge(w, h.via.from, h.via) && Earlier(acc, i, h.via.from, h.depth - 1)
  }

  ghost predicate Earlier(acc: seq<Hop>, n: nat, id: nat, depth: nat)
    requires n <= |acc|
  {
    exists j :: 0 <= j < n && acc[j].via.id == id && acc[j].depth == depth
  }

  ghost predicate Placed(w: World, acc: seq<Hop>)
  {
    && (forall i :: 0 <= i < |acc| ==> HopOk(w, acc, i))
    && (forall i, j :: 0 <= i < j < |acc| ==> acc[i].via.id != acc[j].via.id)
  }

  ghost predicate Holds(acc: seq<Hop>, id: nat) { exists i :: 0 <= i < |acc| && acc[i].via.id == id }

  /** Levels below `level` are complete. */
  ghost predicate Complete(w: World, acc: seq<Hop>, level: nat)
  {
    && (forall id :: Holds(acc, id) <==> id in Before(w, level))
    && (forall i :: 0 <= i < |acc| ==> acc[i].depth < level)
  }

  /** The frontier holds every edge out of the last level, and nothing else. */
  ghost predicate Front(w: World, acc: seq<Hop>, level: nat, front: seq<Via>)
  {
    if level == 0 then front == [StartVia(w.q)]
    else
      && (forall v :: v in front ==> Edge(w, v.from, v) && Earlier(acc, |acc|, v.from, level - 1))
      && (forall i, v :: 0 <= i < |acc| && acc[i].depth == level - 1 && Edge(w, acc[i].via.id, v) ==> v in front)
  }

  /** Of the stored ids, exactly those in `ids` are marked. */
  ghost predicate SeenAre(w: World, t: seq<nat>, acc: seq<Hop>)
  {
    forall id :: Shown(w, id) ==> (id in t <==> Holds(acc, id))
  }

  /** A frontier target that is visible lies in this level's reach. */
  lemma FrontReached(w: World, acc: seq<Hop>, level: nat, front: seq<Via>, v: Via)
    requires Placed(w, acc) && Front(w, acc, level, front) && v in front && Shown(w, v.id)
    ensures v.id in Reach(w, level)
  {
    hide Edge, Reach, Shown;
    if level == 0 {
      StartReached(w);
    } else {
      var j :| 0 <= j < |acc| && acc[j].via.id == v.from && acc[j].depth == level - 1;
      assert HopOk(w, acc, j) && Linked(w, v.from, v.id);
      ReachStep(w, level - 1, v.from, v.id);
    }
  }

  lemma StartReached(w: World)
    ensures forall x :: x in Reach(w, 0) <==> x == w.q.start && Shown(w, x)
  {
  }

  /** Every record new at this level is a frontier target. */
  lemma FrontCovers(w: World, acc: seq<Hop>, level: nat, front: seq<Via>, x: nat)
    requires Complete(w, acc, level) && Placed(w, acc) && Front(w, acc, level, front)
    requires x in Reach(w, level) && x !in Before(w, level)
    ensures Shown(w, x) && exists v :: v in front && v.id == x
  {
    hide Edge, Reach, Shown, Placed;
    if level == 0 {
      StartReached(w);
      assert StartVia(w.q) in front;
    } else {
      ReachSplit(w, level, x);
      var a :| a in Reach(w, level - 1) && Linked(w, a, x);
      var v: Via :| v.id == x && Edge(w, a, v);
      assert Holds(acc, a);
      var i :| 0 <= i < |acc| && acc[i].via.id == a;
      DeepestExpands(w, acc, level, i, x);
      assert v in front;
    }
  }

  /** A record first reached at `level` hangs off the level just before it. */
  lemma DeepestExpands(w: World, acc: seq<Hop>, level: nat, i: nat, x: nat)
    requires level > 0 && Complete(w, acc, level) && Placed(w, acc) && i < |acc|
    requires Linked(w, acc[i].via.id, x) && Shown(w, x) && x !in Reach(w, level - 1)
    ensures acc[i].depth == level - 1
  {
    hide Edge, Reach, Linked, Shown;
    var d := acc[i].depth;
    assert HopOk(w, acc, i);
    if d < level - 1 {
      ReachStep(w, d, acc[i].via.id, x);
      ReachGrows(w, d + 1, level - 1);
    }
  }

  // ----- one level --------------------------------------------------------------------------

  /** What claiming the frontier's unseen ids leaves: `vias` in frontier order, each id once. */
  ghost predicate Claimed(w: World, was: seq<nat>, t: seq<nat>, front: seq<Via>, vias: seq<Via>)
  {
    && (forall i :: 0 <= i < |vias| ==> vias[i] in front && vias[i].id in w.db && vias[i].id !in was)
    && (forall i, j :: 0 <= i < j < |vias| ==> vias[i].id != vias[j].id)
    && (forall x :: x in w.db ==> (x in t <==> x in was || Takes(vias, x)))
  }

  ghost predicate Takes(vias: seq<Via>, id: nat) { exists i :: 0 <= i < |vias| && vias[i].id == id }

  lemma TakesMore(vias: seq<Via>, v: Via)
    ensures forall id :: Takes(vias + [v], id) <==> Takes(vias, id) || id == v.id
  {
    forall id | Takes(vias, id) || id == v.id ensures Takes(vias + [v], id) {
      if Takes(vias, id) {
        var i :| 0 <= i < |vias| && vias[i].id == id;
        assert (vias + [v])[i].id == id;
      } else {
        assert (vias + [v])[|vias|].id == id;
      }
    }
  }

  method Claim(ghost w: World, db: map<nat, Record>, a: array<nat>, hash: nat -> nat, front: seq<Via>, seenBefore: nat)
    returns (vias: seq<Via>, seenN: nat, capped: bool)
    requires DbOk(db) && w.db == db && a.Length == SEEN_SLOTS
    requires SeenOk(a[..], hash) && Marks(a[..]) <= seenBefore <= MAX_NODES
    modifies a
    ensures SeenOk(a[..], hash) && Marks(a[..]) <= seenN <= MAX_NODES
    ensures seenN <= seenBefore + |front|
    ensures Claimed(w, old(a[..]), a[..], front, vias)
    ensures !capped ==> forall i :: 0 <= i < |front| && front[i].id in db ==> front[i].id in a[..]
    ensures capped ==> seenBefore + |front| > MAX_NODES && seenN == MAX_NODES
    ensures |vias| <= |front|
    ensures forall x :: x != 0 && x in a[..] ==> x in old(a[..]) || Takes(front, x)
    ensures (forall i :: 0 <= i < |front| ==> front[i].id != 0) && old(Marks(a[..])) == seenBefore ==>
              Marks(a[..]) == seenN
  {
    hide SeenOk, Marks;
    vias, seenN, capped := [], seenBefore, false;
    ghost var was := a[..];
    for i := 0 to |front|
      invariant SeenOk(a[..], hash) && Marks(a[..]) <= seenN <= MAX_NODES && seenN <= seenBefore + i && |vias| <= i
      invariant Claimed(w, was, a[..], front, vias)
      invariant forall j :: 0 <= j < i && front[j].id in db ==> front[j].id in a[..]
      invariant forall x :: x != 0 && x in a[..] ==> x in was || Takes(front, x)
      invariant (forall j :: 0 <= j < |front| ==> front[j].id != 0) && Marks(was) == seenBefore ==>
                  Marks(a[..]) == seenN
    {
      if seenN >= MAX_NODES {
        capped := true;
        return;
      }
      var id := front[i].id;
      assert Takes(front, id);
      ghost var t := a[..];
      var added := SeenInsert(a, hash, id);
      assert forall x :: x in db ==> x != 0;
      if !added {
        continue;
      }
      seenN := seenN + 1;
      if id !in db {
        continue;
      }
      TakesMore(vias, front[i]);
      assert id !in t;
      forall j | 0 <= j < |vias| ensures vias[j].id != id {
        assert Takes(vias, vias[j].id);
      }
      vias := vias + [front[i]];
    }
  }

  function HopsOf(db: map<nat, Record>, q: Query, now: nat, vias: seq<Via>, level: nat): seq<Hop>
    requires forall i :: 0 <= i < |vias| ==> vias[i].id in db
  {
    if vias == [] then []
    else
      var v := vias[|vias| - 1];
      HopsOf(db, q, now, vias[..|vias| - 1], level)
          + (if Visible(db[v.id], q, now) then [Hop(db[v.id], level, v)] else [])
  }

  lemma {:induction false} HopsMembers(db: map<nat, Record>, q: Query, now: nat, vias: seq<Via>, level: nat)
    requires forall i :: 0 <= i < |vias| ==> vias[i].id in db
    requires forall i, j :: 0 <= i < j < |vias| ==> vias[i].id != vias[j].id
    ensures var hs := HopsOf(db, q, now, vias, level);
            && |hs| <= |vias|
            && (forall i :: 0 <= i < |hs| ==>
                 && hs[i].via in vias && hs[i].depth == level
                 && hs[i].rec == db[hs[i].via.id] && Visible(hs[i].rec, q, now))
            && (forall i, j :: 0 <= i < j < |hs| ==> hs[i].via.id != hs[j].via.id)
            && (forall k :: 0 <= k < |vias| && Visible(db[vias[k].id], q, now) ==> Holds(hs, vias[k].id))
  {
    if vias != [] {
      var front, v := vias[..|vias| - 1], vias[|vias| - 1];
      HopsMembers(db, q, now, front, level);
      var hs0, hs := HopsOf(db, q, now, front, level), HopsOf(db, q, now, vias, level);
      assert v in vias;
      forall k | 0 <= k < |vias| && Visible(db[vias[k].id], q, now) ensures Holds(hs, vias[k].id) {
        if k < |front| {
          assert front[k] == vias[k];
          var i :| 0 <= i < |hs0| && hs0[i].via.id == vias[k].id;
          assert hs[i].via.id == vias[k].id;
        } else {
          assert hs[|hs0|].via.id == v.id;
        }
      }
    }
  }

  /** Reading the claimed records: the visible ones are returned, and their outgoing
      edges of a wanted kind go on the next frontier. */
  method Collect(ghost w: World, db: map<nat, Record>, q: Query, now: nat, vias: seq<Via>, level: nat)
    returns (hops: seq<Hop>, next: seq<Via>)
    requires DbOk(db) && w.db == db && w.q == q && w.now == now
    requires forall i :: 0 <= i < |vias| ==> vias[i].id in db
    ensures hops == HopsOf(db, q, now, vias, level)
    ensures forall v :: v in next <==> exists i :: 0 <= i < |hops| && OutEdge(w, hops[i].via.id, v)
    ensures |next| <= (if q.dir == Incoming then 0 else TotalRels(hops))
  {
    hops, next := [], [];
    for i := 0 to |vias|
      invariant hops == HopsOf(db, q, now, vias[..i], level)
      invariant forall j :: 0 <= j < |hops| ==> hops[j].via.id in db && hops[j].rec == db[hops[j].via.id]
      invariant forall v :: v in next <==> exists j :: 0 <= j < |hops| && OutEdge(w, hops[j].via.id, v)
      invariant |next| <= (if q.dir == Incoming then 0 else TotalRels(hops))
    {
      var r := db[vias[i].id];
      assert vias[..i + 1][..i] == vias[..i];
      if !Visible(r, q, now) {
        continue;
      }
      ghost var hops0, next0 := hops, next;
      hops := hops + [Hop(r, level, vias[i])];
      assert hops[..|hops| - 1] == hops0;
      var more := [];
      if q.dir != Incoming {
        more := Forward(r, q);
      }
      next := next + more;
      assert forall v :: v in more <==> OutEdge(w, r.id, v);
      OneMoreHop(w, hops0, hops[|hops0|], next0, more);
    }
    assert vias[..|vias|] == vias;
  }

  lemma OneMoreHop(w: World, hops: seq<Hop>, hop: Hop, next: seq<Via>, more: seq<Via>)
    requires forall v :: v in next <==> exists i :: 0 <= i < |hops| && OutEdge(w, hops[i].via.id, v)
    requires forall v :: v in more <==> OutEdge(w, hop.via.id, v)
    ensures forall v ::
              v in next + more <==> exists i :: 0 <= i < |hops + [hop]| && OutEdge(w, (hops + [hop])[i].via.id, v)
  {
    hide OutEdge;
    var all := hops + [hop];
    forall v ensures v in next + more <==> exists i :: 0 <= i < |all| && OutEdge(w, all[i].via.id, v) {
      if v in next {
        var i :| 0 <= i < |hops| && OutEdge(w, hops[i].via.id, v);
        assert OutEdge(w, all[i].via.id, v);
      }
      if v in more {
        assert OutEdge(w, all[|hops|].via.id, v);
      }
      if i :| 0 <= i < |all| && OutEdge(w, all[i].via.id, v) {
        assert i < |hops| ==> OutEdge(w, hops[i].via.id, v);
      }
    }
  }

  ghost function TotalRels(hops: seq<Hop>): nat
  {
    if hops == [] then 0 else TotalRels(hops[..|hops| - 1]) + |hops[|hops| - 1].rec.rels|
  }

  method Forward(r: Record, q: Query) returns (out: seq<Via>)
    ensures forall v :: v in out <==>
              v.from == r.id && !v.incoming && !v.uncertain && Relation(v.id, v.kind) in r.rels
                  && Wanted(q.kinds, v.kind)
    ensures |out| <= |r.rels|
  {
    out := [];
    for k := 0 to |r.rels|
      invariant forall v :: v in out <==>
                  v.from == r.id && !v.incoming && !v.uncertain && Relation(v.id, v.kind) in r.rels[..k]
                      && Wanted(q.kinds, v.kind)
      invariant |out| <= k
    {
      if Wanted(q.kinds, r.rels[k].kind) {
        out := out + [Via(r.rels[k].to, r.id, r.rels[k].kind, false, false)];
      }
    }
  }

  /** The incoming edges of each record returned at this level. */
  method Backward(ghost w: World, index: Index, q: Query, hops: seq<Hop>) returns (out: seq<Via>)
    requires index.Valid() && w.m == index.Map() && w.names == index.names && w.q == q && q.dir != Outgoing
    ensures forall v :: v in out <==> exists i :: 0 <= i < |hops| && InEdge(w, hops[i].via.id, v)
  {
    hide SourcesOf, Index.Valid;
    out := [];
    for i := 0 to |hops|
      invariant forall v :: v in out <==> exists j :: 0 <= j < i && InEdge(w, hops[j].via.id, v)
    {
      var id := hops[i].via.id;
      var srcs := Sources(index, id, q.kinds);
      ghost var out0 := out;
      for j := 0 to |srcs|
        invariant forall v :: v in out <==>
                    v in out0 || (v.from == id && v.incoming && Source(v.id, v.kind, v.uncertain) in srcs[..j])
      {
        out := out + [Via(srcs[j].src, id, srcs[j].kind, true, srcs[j].unknown)];
      }
      assert srcs[..|srcs|] == srcs;
      assert forall v :: v in out <==> v in out0 || InEdge(w, id, v);
    }
  }

  // ----- gluing one level to the next ------------------------------------------------------

  /** The hops a level adds keep every returned record sound. */
  lemma LevelPlaced(w: World, acc: seq<Hop>, level: nat, front: seq<Via>, was: seq<nat>, t: seq<nat>, vias: seq<Via>)
    requires DbOk(w.db) && Complete(w, acc, level) && Placed(w, acc) && Front(w, acc, level, front)
    requires SeenAre(w, was, acc) && Claimed(w, was, t, front, vias)
    ensures Placed(w, acc + HopsOf(w.db, w.q, w.now, vias, level))
  {
    hide Edge, HopsOf, Complete, Front, Reach;
    var hs := HopsOf(w.db, w.q, w.now, vias, level);
    HopsMembers(w.db, w.q, w.now, vias, level);
    var acc' := acc + hs;
    forall i | 0 <= i < |acc'| ensures HopOk(w, acc', i) {
      if i < |acc| {
        assert HopOk(w, acc, i);
        EarlierKept(acc, hs, i, acc[i].via.from, acc[i].depth - 1);
      } else {
        var k := i - |acc|;
        assert hs[k].via in vias && hs[k].via in front;
        FrontReached(w, acc, level, front, hs[k].via);
        NotYet(w, acc, level, was, hs[k].via.id);
        NewHopOk(w, acc, level, front, hs, k);
      }
    }
    forall i, j | 0 <= i < j < |acc'| ensures acc'[i].via.id != acc'[j].via.id {
      if i < |acc| && |acc| <= j {
        assert Holds(acc, acc[i].via.id) && hs[j - |acc|].via in vias;
        assert HopOk(w, acc, i);
        ShownIfReached(w, acc[i].depth, acc[i].via.id);
      }
    }
  }

  lemma NotYet(w: World, acc: seq<Hop>, level: nat, was: seq<nat>, x: nat)
    requires Complete(w, acc, level) && SeenAre(w, was, acc) && Shown(w, x) && x !in was
    ensures x !in Before(w, level)
  {
  }

  lemma {:induction false} ShownIfReached(w: World, n: nat, x: nat)
    requires x in Reach(w, n)
    ensures Shown(w, x)
  {
    if n > 0 && x in Reach(w, n - 1) {
      ShownIfReached(w, n - 1, x);
    }
  }

  lemma EarlierKept(acc: seq<Hop>, more: seq<Hop>, n: nat, id: nat, depth: int)
    requires n <= |acc|
    ensures depth >= 0 && Earlier(acc, n, id, depth) ==> Earlier(acc + more, n, id, depth)
  {
    if depth >= 0 && Earlier(acc, n, id, depth) {
      var j :| 0 <= j < n && acc[j].via.id == id && acc[j].depth == depth;
      assert (acc + more)[j] == acc[j];
    }
  }

  lemma NewHopOk(w: World, acc: seq<Hop>, level: nat, front: seq<Via>, hs: seq<Hop>, k: nat)
    requires Front(w, acc, level, front) && k < |hs|
    requires hs[k].via in front && hs[k].depth == level && hs[k].via.id in w.db && hs[k].rec == w.db[hs[k].via.id]
    requires hs[k].via.id in Reach(w, level) && hs[k].via.id !in Before(w, level)
    ensures HopOk(w, acc + hs, |acc| + k)
  {
    var v := hs[k].via;
    assert (acc + hs)[|acc| + k] == hs[k];
    if level > 0 {
      var j :| 0 <= j < |acc| && acc[j].via.id == v.from && acc[j].depth == level - 1;
      assert (acc + hs)[j] == acc[j];
    }
  }

  /** A level that was not cut short is complete, and the table still agrees. */
  lemma LevelComplete(w: World, acc: seq<Hop>, level: nat, front: seq<Via>, was: seq<nat>, t: seq<nat>, vias: seq<Via>)
    requires DbOk(w.db) && Complete(w, acc, level) && Placed(w, acc) && Front(w, acc, level, front)
    requires SeenAre(w, was, acc) && Claimed(w, was, t, front, vias)
    requires forall i :: 0 <= i < |front| && front[i].id in w.db ==> front[i].id in t
    ensures var acc' := acc + HopsOf(w.db, w.q, w.now, vias, level);
            Complete(w, acc', level + 1) && SeenAre(w, t, acc')
  {
    hide Edge, HopsOf, Reach, HopOk, Front;
    var hs := HopsOf(w.db, w.q, w.now, vias, level);
    HopsMembers(w.db, w.q, w.now, vias, level);
    var acc' := acc + hs;
    HoldsSplit(acc, hs);
    forall x | Shown(w, x) ensures x in t <==> Holds(acc', x) {
      if Takes(vias, x) {
        var i :| 0 <= i < |vias| && vias[i].id == x;
        assert Holds(hs, vias[i].id);
      }
      if Holds(hs, x) {
        var i :| 0 <= i < |hs| && hs[i].via.id == x;
        var j :| 0 <= j < |vias| && vias[j] == hs[i].via;
      }
    }
    forall x ensures Holds(acc', x) <==> x in Reach(w, level) {
      if x in Reach(w, level) && x !in Before(w, level) {
        FrontCovers(w, acc, level, front, x);
      }
      if x in Before(w, level) {
        ReachGrows(w, level - 1, level);
      }
      if Holds(hs, x) {
        var i :| 0 <= i < |hs| && hs[i].via.id == x;
        assert hs[i].via in front;
        FrontReached(w, acc, level, front, hs[i].via);
      }
    }
  }

  lemma HoldsSplit(acc: seq<Hop>, hs: seq<Hop>)
    ensures forall x :: Holds(acc + hs, x) <==> Holds(acc, x) || Holds(hs, x)
  {
    forall x | Holds(acc, x) || Holds(hs, x) ensures Holds(acc + hs, x) {
      if Holds(acc, x) {
        var i :| 0 <= i < |acc| && acc[i].via.id == x;
        assert (acc + hs)[i].via.id == x;
      } else {
        var i :| 0 <= i < |hs| && hs[i].via.id == x;
        assert (acc + hs)[|acc| + i].via.id == x;
      }
    }
  }

  lemma NextFront(w: World, acc: seq<Hop>, hs: seq<Hop>, level: nat, next: seq<Via>)
    requires forall i :: 0 <= i < |acc| ==> acc[i].depth < level
    requires forall i :: 0 <= i < |hs| ==> hs[i].depth == level
    requires forall v :: v in next <==> exists i :: 0 <= i < |hs| && Edge(w, hs[i].via.id, v)
    ensures Front(w, acc + hs, level + 1, next)
  {
    hide OutEdge, InEdge;
    var acc' := acc + hs;
    forall v | v in next ensures Edge(w, v.from, v) && Earlier(acc', |acc'|, v.from, level) {
      var i :| 0 <= i < |hs| && Edge(w, hs[i].via.id, v);
      EdgeFrom(w, hs[i].via.id, v);
      assert acc'[|acc| + i] == hs[i];
    }
  }

  lemma EdgeFrom(w: World, a: nat, v: Via)
    requires Edge(w, a, v)
    ensures v.from == a
  {
  }

  lemma EdgesSplit(w: World, hops: seq<Hop>, out: seq<Via>, back: seq<Via>)
    requires forall v :: v in out <==> exists i :: 0 <= i < |hops| && OutEdge(w, hops[i].via.id, v)
    requires if w.q.dir == Outgoing then back == []
             else forall v :: v in back <==> exists i :: 0 <= i < |hops| && InEdge(w, hops[i].via.id, v)
    ensures forall v :: v in out + back <==> exists i :: 0 <= i < |hops| && Edge(w, hops[i].via.id, v)
  {
  }

  // ----- the walk ---------------------------------------------------------------------------

  lemma Begin(w: World, t: seq<nat>, hash: nat -> nat)
    requires forall i :: 0 <= i < |t| ==> t[i] == 0
    requires DbOk(w.db)
    ensures SeenOk(t, hash) && Marks(t) == 0
    ensures Placed(w, []) && Progress(w, t, [], 0, [StartVia(w.q)]) && MarksTouched(w, t, [])
  {
    CountAll(t, (x: nat) => NonZero(x));
  }

  /** The frontier ran dry, or the depth was reached: nothing in range is missing. */
  lemma Finished(w: World, t: seq<nat>, acc: seq<Hop>, level: nat, front: seq<Via>)
    requires Placed(w, acc) && Progress(w, t, acc, level, front)
    requires level == w.q.depth + 1 || (level <= w.q.depth && front == [])
    ensures forall id :: Holds(acc, id) <==> id in Reach(w, w.q.depth)
  {
    if level <= w.q.depth {
      forall x | x in Reach(w, level) ensures x in Before(w, level) {
        if x !in Before(w, level) {
          FrontCovers(w, acc, level, front, x);
        }
      }
      if level > 0 {
        ReachGrows(w, level - 1, level);
      }
      assert Before(w, level + 1) == Before(w, level);
      Saturates(w, level, w.q.depth);
    }
  }

  lemma ClaimedIds(w: World, was: seq<nat>, t: seq<nat>, front: seq<Via>, vias: seq<Via>)
    requires Claimed(w, was, t, front, vias)
    ensures forall i :: 0 <= i < |vias| ==> vias[i].id in w.db
    ensures forall i, j :: 0 <= i < j < |vias| ==> vias[i].id != vias[j].id
  {
  }

  lemma DepthsBelow(w: World, acc: seq<Hop>, level: nat)
    requires Complete(w, acc, level)
    ensures forall i :: 0 <= i < |acc| ==> acc[i].depth < level
  {
  }

  ghost predicate FewRels(db: map<nat, Record>) { forall id :: id in db ==> |db[id].rels| <= MAX_RELATIONSHIPS }

  /** One record's relationships cannot fill the visited set. */
  lemma RelsBound(w: World, acc: seq<Hop>)
    requires Placed(w, acc) && |acc| <= 1
    requires FewRels(w.db)
    ensures TotalRels(acc) <= MAX_RELATIONSHIPS
  {
    if acc != [] {
      assert HopOk(w, acc, 0);
      assert acc[..0] == [];
    }
  }

  /** No edge leads to id 0, which the visited table cannot hold. */
  ghost predicate NoZero(w: World) { w.q.start != 0 && forall a, v :: Edge(w, a, v) ==> v.id != 0 }

  ghost predicate Touched(w: World, acc: seq<Hop>, x: nat)
  {
    x == w.q.start || exists i :: 0 <= i < |acc| && Linked(w, acc[i].via.id, x)
  }

  /** Whatever is marked is the start or a neighbour of a returned record. */
  ghost predicate MarksTouched(w: World, t: seq<nat>, acc: seq<Hop>)
  {
    forall x :: x != 0 && x in t ==> Touched(w, acc, x)
  }

  lemma TouchedMore(w: World, acc: seq<Hop>, more: seq<Hop>, x: nat)
    requires Touched(w, acc, x)
    ensures Touched(w, acc + more, x)
  {
    if i :| 0 <= i < |acc| && Linked(w, acc[i].via.id, x) {
      assert (acc + more)[i] == acc[i];
    }
  }

  lemma FrontTouched(w: World, acc: seq<Hop>, level: nat, front: seq<Via>, x: nat)
    requires Front(w, acc, level, front) && Takes(front, x)
    ensures Touched(w, acc, x) && (NoZero(w) ==> x != 0)
  {
    hide Edge;
    var i :| 0 <= i < |front| && front[i].id == x;
    if level > 0 {
      assert front[i] in front;
      var j :| 0 <= j < |acc| && acc[j].via.id == front[i].from && acc[j].depth == level - 1;
      assert Linked(w, acc[j].via.id, x);
    }
  }

  lemma LevelTouches(w: World, acc: seq<Hop>, level: nat, front: seq<Via>, was: seq<nat>, t: seq<nat>, more: seq<Hop>)
    requires Front(w, acc, level, front) && MarksTouched(w, was, acc)
    requires forall x :: x != 0 && x in t ==> x in was || Takes(front, x)
    ensures MarksTouched(w, t, acc + more)
    ensures NoZero(w) ==> forall i :: 0 <= i < |front| ==> front[i].id != 0
  {
    hide Front, NoZero, Touched;
    forall x | x != 0 && x in t ensures Touched(w, acc + more, x) {
      if Takes(front, x) {
        FrontTouched(w, acc, level, front, x);
      }
      TouchedMore(w, acc, more, x);
    }
    forall i | NoZero(w) && 0 <= i < |front| ensures front[i].id != 0 {
      FrontTouched(w, acc, level, front, front[i].id);
    }
  }

  /** The ids a table of distinct marks holds. */
  ghost function MarkSet(t: seq<nat>): set<nat> { set x | x in t && x != 0 }

  lemma {:induction false} MarksAre(t: seq<nat>)
    requires forall i, j :: 0 <= i < j < |t| && t[i] != 0 ==> t[i] != t[j]
    ensures |MarkSet(t)| == Marks(t)
  {
    hide MarkSet;
    if t == [] {
      MarkSetGrows([], 0);
    } else {
      var front, last := t[..|t| - 1], t[|t| - 1];
      MarksAre(front);
      assert t == front + [last];
      forall i | 0 <= i < |front| ensures front[i] == last ==> last == 0 {
        assert front[i] == t[i];
      }
      MarkSetGrows(front, last);
    }
  }

  lemma MarkSetGrows(front: seq<nat>, last: nat)
    ensures MarkSet([]) == {}
    ensures MarkSet(front + [last]) == if last == 0 then MarkSet(front) else MarkSet(front) + {last}
    ensures last !in front ==> last !in MarkSet(front)
  {
  }

  lemma SeenDistinct(t: seq<nat>, hash: nat -> nat)
    requires SeenOk(t, hash)
    ensures forall i, j :: 0 <= i < j < |t| && t[i] != 0 ==> t[i] != t[j]
  {
    assert Distinct(Slots(t));
    forall i, j | 0 <= i < j < |t| && t[i] != 0 ensures t[i] != t[j] {
      if t[j] != 0 {
        assert Slots(t)[i].key == t[i] && Slots(t)[j].key == t[j];
      }
    }
  }

  /** The walk really met as many ids as it may visit. */
  ghost predicate Crowded(w: World, acc: seq<Hop>)
  {
    exists ids: set<nat> :: |ids| == MAX_NODES && forall x :: x in ids ==> Touched(w, acc, x)
  }

  lemma FullIsCrowded(w: World, t: seq<nat>, hash: nat -> nat, acc: seq<Hop>)
    requires SeenOk(t, hash) && Marks(t) == MAX_NODES && MarksTouched(w, t, acc)
    ensures Crowded(w, acc)
  {
    hide Touched, Marks, SeenOk;
    SeenDistinct(t, hash);
    MarksAre(t);
    assert forall x :: x in MarkSet(t) ==> Touched(w, acc, x);
  }

  ghost predicate Progress(w: World, t: seq<nat>, acc: seq<Hop>, level: nat, front: seq<Via>)
  {
    Complete(w, acc, level) && Front(w, acc, level, front) && SeenAre(w, t, acc)
  }

  /** One level: claim, read, and expand forwards and backwards. */
  method Level(ghost w: World, index: Index?, a: array<nat>, hash: nat -> nat, db: map<nat, Record>, q: Query, now: nat,
               level: nat, acc: seq<Hop>, front: seq<Via>, seenBefore: nat)
    returns (acc': seq<Hop>, front': seq<Via>, seenN: nat, capped: bool)
    requires DbOk(db) && w.db == db && w.q == q && w.now == now && (q.dir == Outgoing || index != null)
    requires index != null ==> index.Valid() && w.m == index.Map() && w.names == index.names
    requires a.Length == SEEN_SLOTS && SeenOk(a[..], hash) && Marks(a[..]) <= seenBefore <= MAX_NODES
    requires Placed(w, acc) && Progress(w, a[..], acc, level, front) && MarksTouched(w, a[..], acc)
    modifies a
    ensures SeenOk(a[..], hash) && Marks(a[..]) <= seenN <= MAX_NODES && seenN <= seenBefore + |front|
    ensures Placed(w, acc') && acc <= acc' && |acc'| <= |acc| + |front|
    ensures forall i :: |acc| <= i < |acc'| ==> acc'[i].depth == level
    ensures !capped ==> Progress(w, a[..], acc', level + 1, front')
    ensures capped ==> seenBefore + |front| > MAX_NODES && seenN == MAX_NODES
    ensures MarksTouched(w, a[..], acc')
    ensures NoZero(w) && old(Marks(a[..])) == seenBefore ==> Marks(a[..]) == seenN
    ensures q.dir == Outgoing ==> |front'| <= TotalRels(acc'[|acc|..])
  {
    hide SeenOk, Marks, Placed, Complete, Front, SeenAre, Claimed, HopsOf, Edge, OutEdge, InEdge, Index.Valid,
        MarksTouched, NoZero, Takes;
    ghost var was := a[..];
    var vias;
    vias, seenN, capped := Claim(w, db, a, hash, front, seenBefore);
    ClaimedIds(w, was, a[..], front, vias);
    var hops, next := Collect(w, db, q, now, vias, level);
    LevelPlaced(w, acc, level, front, was, a[..], vias);
    HopsMembers(db, q, now, vias, level);
    var back := [];
    if q.dir != Outgoing {
      back := Backward(w, index, q, hops);
    }
    LevelTouches(w, acc, level, front, was, a[..], hops);
    acc', front' := acc + hops, next + back;
    assert acc'[|acc|..] == hops;
    if !capped {
      LevelComplete(w, acc, level, front, was, a[..], vias);
      EdgesSplit(w, hops, next, back);
      DepthsBelow(w, acc, level);
      NextFront(w, acc, hops, level, front');
    }
  }

  /** Uncapped, the records returned are exactly those within `depth` edges, each once, at
      its shortest distance, through a record returned one level up. Capped, what is
      returned is still sound, and the walk did meet that many ids. */
  method Traverse(db: map<nat, Record>, index: Index?, hash: nat -> nat, q: Query, now: nat)
    returns (o: Outcome, ghost w: World)
    requires DbOk(db) && (index != null ==> index.Valid())
    ensures w == World(db, if index == null then map[] else index.Map(), if index == null then []
                else index.names, q, now)
    ensures o.NotReady? <==> q.dir != Outgoing && index == null
    ensures o.Walked? ==> Placed(w, o.hops) && forall i :: 0 <= i < |o.hops| ==> o.hops[i].depth <= q.depth
    ensures o.Walked? && !o.capped ==> forall id :: Holds(o.hops, id) <==> id in Reach(w, q.depth)
    ensures o.Walked? && !o.capped && (q.dir == Outgoing || Indexed(w)) ==>
              forall id :: Holds(o.hops, id) <==> RecordWithin(db, w.names, q, now, q.depth, id)
    ensures o.Walked? && o.capped && NoZero(w) ==> Crowded(w, o.hops)
    ensures o.Walked? && q.dir == Outgoing && q.depth <= 1 && FewRels(db) ==> !o.capped
  {
    hide SeenOk, Marks, Placed, Progress, Reach, Index.Valid, MarksTouched, NoZero, Crowded, RecordWithin, Indexed;
    w := World(db, if index == null then map[] else index.Map(), if index == null then [] else index.names, q, now);
    if q.dir != Outgoing && index == null {
      return NotReady, w;
    }
    var seen := new nat[SEEN_SLOTS](i => 0);
    var acc, front, seenN, level, capped := [], [StartVia(q)], 0, 0, false;
    Begin(w, seen[..], hash);
    while level <= q.depth && front != [] && !capped
      invariant level <= q.depth + 1
      invariant SeenOk(seen[..], hash) && Marks(seen[..]) <= seenN <= MAX_NODES
      invariant Placed(w, acc) && forall i :: 0 <= i < |acc| ==> acc[i].depth <= q.depth
      invariant !capped ==> Progress(w, seen[..], acc, level, front)
      invariant MarksTouched(w, seen[..], acc) && (NoZero(w) ==> Marks(seen[..]) == seenN)
                && (capped ==> seenN == MAX_NODES)
      invariant level == 0 ==> |front| == 1 && seenN == 0 && acc == []
      invariant level == 1 && q.dir == Outgoing ==> |front| <= TotalRels(acc) && seenN <= 1 && |acc| <= 1
      invariant q.dir == Outgoing && q.depth <= 1 && FewRels(db) ==> !capped
      decreases q.depth + 1 - level
    {
      if level == 1 && q.dir == Outgoing && FewRels(db) {
        RelsBound(w, acc);
      }
      ghost var before := acc;
      acc, front, seenN, capped := Level(w, index, seen, hash, db, q, now, level, acc, front, seenN);
      assert acc[..|before|] == before;
      assert level == 0 ==> acc[|before|..] == acc;
      level := level + 1;
    }
    o := Walked(acc, capped);
    if !capped {
      Finished(w, seen[..], acc, level, front);
      if q.dir == Outgoing || Indexed(w) {
        forall id ensures id in Reach(w, q.depth) <==> RecordWithin(db, w.names, q, now, q.depth, id) {
          ReachIsRecords(w, q.depth, id);
        }
      }
    } else if NoZero(w) {
      FullIsCrowded(w, seen[..], hash, acc);
    }
  }
}
