/** Truth maintenance over derived records, as a step system.

    Every step below is one critical section of the server: an operation that
    holds `index_lock` (or the queue lock) for its whole effect. Client writes,
    the inference job and the retraction job interleave at this grain, so a
    premise may be deleted between the insert of a conclusion and the edges that
    link it to its premises, and between any two liveness reads of one
    retraction check. */
module TruthMaintenance {
  import opened Facts

  /** One justification: the rule and the records it fired on. */
  datatype Route = Route(rule: Rule, premises: seq<nat>)

  /** A record as truth maintenance sees it. `routes == []` means asserted. */
  datatype Rec = Rec(ns: string, fact: Option<Triple>, routes: seq<Route>, live: bool)

  /** A `derived_from` edge, or the still outstanding call that will create it. */
  datatype Link = Link(src: nat, dst: nat)

  /** The retraction job's position inside one record's check. */
  datatype Exam =
    | Idle
    | Reading(id: nat, route: nat, premise: nat)  // next liveness read
    | Condemned(id: nat)                          // no route stands; tombstone is next

  datatype State = State(
    nextId: nat,
    recs: map<nat, Rec>,
    edges: set<Link>,         // the reverse index, restricted to derived_from
    links: multiset<Link>,    // relate calls a conclusion's writer has yet to make
    queue: seq<nat>,          // ids awaiting a retraction check
    batch: seq<nat>,          // ids drained from the queue by the running check
    exam: Exam)

  const Empty := State(1, map[], {}, multiset{}, [], [], Idle)

  predicate Live(s: State, id: nat) { id in s.recs && s.recs[id].live }

  predicate RouteLive(s: State, r: Route) { forall k :: 0 <= k < |r.premises| ==> Live(s, r.premises[k]) }

  /** Support is disjunctive: one surviving route is enough. */
  predicate Stands(s: State, rec: Rec)
  {
    rec.routes == [] || exists i :: 0 <= i < |rec.routes| && RouteLive(s, rec.routes[i])
  }

  function FactsOf(s: State, ids: seq<nat>): seq<Triple>
    requires forall k :: 0 <= k < |ids| ==> ids[k] in s.recs && s.recs[ids[k]].fact.Some?
  {
    seq(|ids|, k requires 0 <= k < |ids| => s.recs[ids[k]].fact.value)
  }

  /** `r` is a genuine rule instance on records of `ns` older than `bound`. */
  predicate Genuine(reg: Registry, s: State, bound: nat, ns: string, r: Route, t: Triple)
  {
    && (forall k :: 0 <= k < |r.premises| ==>
          && r.premises[k] < bound
          && r.premises[k] in s.recs
          && s.recs[r.premises[k]].ns == ns
          && s.recs[r.premises[k]].fact.Some?)
    && Instance(reg, r.rule, FactsOf(s, r.premises), t)
  }

  // ----- the steps -------------------------------------------------------------

  datatype Step =
    | Insert(ns: string, fact: Option<Triple>)
    | Adopt(id: nat, adopted: Triple)
    | Conclude(cns: string, t: Triple, routes: seq<Route>)
    | LinkPremise(link: Link, admitted: bool)
    | Relate(edge: Link)
    | Delete(id: nat)
    | Drain(n: nat)
    | Open
    | Read
    | Withdraw

  /** When a step may happen. A conclusion's premises need only exist: any of
      them may have been deleted since the pass read its facts. */
  predicate Enabled(reg: Registry, s: State, step: Step)
  {
    match step
    case Insert(_, _) => true
    case Adopt(id, _) => Live(s, id) && s.recs[id].fact == None
    case Conclude(ns, t, routes) =>
      routes != [] && forall i :: 0 <= i < |routes| ==> Genuine(reg, s, s.nextId, ns, routes[i], t)
    case LinkPremise(l, _) => l in s.links
    case Relate(e) => Live(s, e.src) && Live(s, e.dst)
    case Delete(id) => Live(s, id)
    case Drain(n) => s.exam == Idle && s.batch == [] && 0 < n <= |s.queue|
    case Open => s.exam == Idle && s.batch != []
    case Read => s.exam.Reading? && ExamInRange(s)
    case Withdraw => s.exam.Condemned?
  }

  predicate ExamInRange(s: State)
  {
    s.exam.Reading? ==>
      && s.exam.id in s.recs
      && s.exam.route < |s.recs[s.exam.id].routes|
      && s.exam.premise < |s.recs[s.exam.id].routes[s.exam.route].premises|
  }

  predicate Cites(routes: seq<Route>, p: nat) { exists i :: 0 <= i < |routes| && p in routes[i].premises }

  function LinksTo(id: nat, premises: seq<nat>): (ls: seq<Link>)
    ensures |ls| == |premises| && forall k :: 0 <= k < |ls| ==> ls[k] == Link(id, premises[k])
  {
    seq(|premises|, k requires 0 <= k < |premises| => Link(id, premises[k]))
  }

  /** The relate calls that follow a conclusion's insert, one per premise. */
  function LinksOf(id: nat, routes: seq<Route>): (ls: multiset<Link>)
    ensures forall l :: l in ls <==> l.src == id && Cites(routes, l.dst)
  {
    if routes == [] then multiset{}
    else
      var here := LinksTo(id, routes[0].premises);
      assert forall l :: l in here <==> l.src == id && l.dst in routes[0].premises by {
        forall k | 0 <= k < |here| ensures here[k] == Link(id, routes[0].premises[k]) {}
        forall p | p in routes[0].premises ensures Link(id, p) in here {
          var k :| 0 <= k < |here| && routes[0].premises[k] == p;
          assert here[k] == Link(id, p);
        }
      }
      assert routes == [routes[0]] + routes[1..];
      multiset(here) + LinksOf(id, routes[1..])
  }

  /** Dependents of `id`: the sources of its incoming derived_from edges. */
  predicate CitedBy(s: State, id: nat, d: nat) { Link(d, id) in s.edges }

  /** The queue after `id`'s dependents are pushed, in the index's order. */
  ghost predicate Enqueued(s: State, id: nat, queue': seq<nat>)
  {
    && |queue'| >= |s.queue| && queue'[..|s.queue|] == s.queue
    && (forall d :: CitedBy(s, id, d) ==> d in queue')
    && (forall i :: |s.queue| <= i < |queue'| ==> CitedBy(s, id, queue'[i]))
  }

  /** qe_delete: push the dependents, drop every edge touching `id`, tombstone. */
  function Tombstone(s: State, id: nat, queue': seq<nat>): State
    requires id in s.recs
  {
    s.(recs := s.recs[id := s.recs[id].(live := false)],
       edges := (set l | l in s.edges && l.src != id && l.dst != id),
       queue := queue')
  }

  /** qe_relate as the conclusion's writer calls it. `admitted` is the outcome of
      the per-record and per-tenant limits, consulted only for a new edge. */
  function LinkEffect(s: State, l: Link, admitted: bool): State
  {
    var s' := s.(links := s.links - multiset{l});
    if !Live(s, l.src) || !Live(s, l.dst) then s'.(queue := s.queue + [l.src])
    else if l in s.edges || !admitted then s'
    else s'.(edges := s.edges + {l})
  }

  ghost predicate Next(reg: Registry, s: State, step: Step, s': State)
  {
    && Enabled(reg, s, step)
    && match step
       case Insert(ns, fact) =>
         s' == s.(nextId := s.nextId + 1, recs := s.recs[s.nextId := Rec(ns, fact, [], true)])
       case Adopt(id, t) =>
         s' == s.(recs := s.recs[id := s.recs[id].(fact := Some(t))])
       case Conclude(ns, t, routes) =>
         s' == s.(nextId := s.nextId + 1,
                  recs := s.recs[s.nextId := Rec(ns, Some(t), routes, true)],
                  links := s.links + LinksOf(s.nextId, routes))
       case LinkPremise(l, admitted) => s' == LinkEffect(s, l, admitted)
       case Relate(e) => s' == s.(edges := s.edges + {e})
       case Delete(id) => Enqueued(s, id, s'.queue) && s' == Tombstone(s, id, s'.queue)
       case Drain(n) => s' == s.(batch := s.queue[..n], queue := s.queue[n..])
       case Open =>
         var id := s.batch[0];
         s' == s.(batch := s.batch[1..],
                  exam := if Live(s, id) && s.recs[id].routes != [] then Reading(id, 0, 0) else Idle)
       case Read =>
         var routes := s.recs[s.exam.id].routes;
         var r := s.exam.route;
         s' == s.(exam :=
                    if !Live(s, routes[r].premises[s.exam.premise]) then
                      (if r + 1 < |routes| then Reading(s.exam.id, r + 1, 0) else Condemned(s.exam.id))
                    else if s.exam.premise + 1 < |routes[r].premises| then s.exam.(premise := s.exam.premise + 1)
                    else Idle)
       case Withdraw =>
         var id := s.exam.id;
         if Live(s, id)
         then Enqueued(s, id, s'.queue) && s' == Tombstone(s, id, s'.queue).(exam := Idle)
         else s' == s.(exam := Idle)
  }

  // ----- the invariant -----------------------------------------------------------

  /** Ids are allocated in order, and every route names older records. */
  ghost predicate Provenance(reg: Registry, s: State)
  {
    && (forall id :: id in s.recs ==> id < s.nextId)
    && (forall id :: id in s.recs && s.recs[id].routes != [] ==>
          && s.recs[id].fact.Some?
          && forall i :: 0 <= i < |s.recs[id].routes| ==>
               Genuine(reg, s, id, s.recs[id].ns, s.recs[id].routes[i], s.recs[id].fact.value))
  }

  ghost predicate EdgesLive(s: State)
  {
    forall l :: l in s.edges ==> Live(s, l.src) && Live(s, l.dst)
  }

  /** An outstanding link, and a link `lost` to a limit, joins a conclusion to one of
      its premises; a lost one is not tried again. */
  ghost predicate LinksExist(s: State, lost: set<Link>)
  {
    && (forall l :: l in lost ==> l !in s.links)
    && forall l :: l in s.links || l in lost ==>
         l.src in s.recs && l.dst in s.recs && Cites(s.recs[l.src].routes, l.dst)
  }

  /** Deleting a live premise will find its dependents: each is linked already,
      the call that links it is still to come, or a limit refused that call. */
  ghost predicate Watched(s: State, lost: set<Link>)
  {
    && LinksExist(s, lost)
    && (forall d, p :: Live(s, d) && Cites(s.recs[d].routes, p) && Live(s, p) ==>
          Link(d, p) in s.edges || Link(d, p) in s.links || Link(d, p) in lost)
  }

  /** Something will still look at `d`: it is queued, drained, about to be
      queued by a failing link, or under a check that will reach a dead premise. */
  ghost predicate UnderReview(s: State, d: nat)
  {
    || d in s.queue
    || d in s.batch
    || LinkWillFail(s, d)
    || CheckWillFail(s, d)
  }

  ghost predicate LinkWillFail(s: State, d: nat)
  {
    exists l :: l in s.links && l.src == d && !Live(s, l.dst)
  }

  ghost predicate CheckWillFail(s: State, d: nat)
  {
    match s.exam
    case Idle => false
    case Condemned(id) => id == d
    case Reading(id, r, p) => id == d && ExamInRange(s) && DeadFrom(s, s.recs[d].routes[r].premises, p)
  }

  ghost predicate DeadFrom(s: State, ps: seq<nat>, from: nat)
  {
    exists k :: from <= k < |ps| && !Live(s, ps[k])
  }

  /** `d` has outlived a premise the link to which was lost. */
  ghost predicate Bereft(s: State, lost: set<Link>, d: nat)
  {
    exists l :: l in lost && l.src == d && !Live(s, l.dst)
  }

  ghost predicate NothingForgotten(s: State, lost: set<Link>)
  {
    forall d :: Live(s, d) && !Stands(s, s.recs[d]) ==> UnderReview(s, d) || Bereft(s, lost, d)
  }

  /** Every route the check has passed over really has a dead premise. */
  ghost predicate ExamHonest(s: State)
  {
    match s.exam
    case Idle => true
    case Reading(id, r, _) =>
      ExamInRange(s) && forall i :: 0 <= i < r ==> !RouteLive(s, s.recs[id].routes[i])
    case Condemned(id) =>
      id in s.recs && !Stands(s, s.recs[id])
  }

  ghost predicate Inv(reg: Registry, s: State, lost: set<Link>)
  {
    Provenance(reg, s) && EdgesLive(s) && Watched(s, lost) && ExamHonest(s) && NothingForgotten(s, lost)
  }

  // ----- every step keeps it -------------------------------------------------------

  /** What no step changes: a record's namespace, its routes, an existing fact,
      and the fact that it is dead. */
  ghost predicate Persists(s: State, s': State)
  {
    forall id :: id in s.recs ==>
      && id in s'.recs
      && s'.recs[id].ns == s.recs[id].ns
      && s'.recs[id].routes == s.recs[id].routes
      && (s.recs[id].fact.Some? ==> s'.recs[id].fact == s.recs[id].fact)
      && (s'.recs[id].live ==> s.recs[id].live)
  }

  lemma GenuineStable(reg: Registry, s: State, s': State, bound: nat, ns: string, r: Route, t: Triple)
    requires Persists(s, s') && Genuine(reg, s, bound, ns, r, t)
    ensures Genuine(reg, s', bound, ns, r, t)
  {
  }

  lemma CitedExist(reg: Registry, s: State, d: nat, p: nat)
    requires Provenance(reg, s) && d in s.recs && Cites(s.recs[d].routes, p)
    ensures p in s.recs && p < d
  {
  }

  /** Review is never lost by a step that keeps the check where it is, keeps the
      queue and keeps each outstanding link that will fail, or queues its source. */
  ghost predicate Carries(s: State, s': State)
  {
    && Persists(s, s')
    && s'.batch == s.batch && s'.exam == s.exam
    && (forall x :: x in s.queue ==> x in s'.queue)
    && (forall l :: l in s.links && !Live(s, l.dst) ==> l in s'.links || l.src in s'.queue)
  }

  lemma ReviewCarries(reg: Registry, s: State, s': State, d: nat, lost: set<Link>)
    requires Provenance(reg, s) && LinksExist(s, lost) && Carries(s, s')
    requires d in s.recs && UnderReview(s, d)
    ensures UnderReview(s', d)
  {
  }

  lemma BereftCarries(s: State, s': State, d: nat, lost: set<Link>)
    requires LinksExist(s, lost) && Persists(s, s') && Bereft(s, lost, d)
    ensures Bereft(s', lost, d)
  {
  }

  lemma ExamCarries(reg: Registry, s: State, s': State)
    requires Provenance(reg, s) && ExamHonest(s) && Persists(s, s') && s'.exam == s.exam
    ensures ExamHonest(s')
  {
  }

  ghost predicate SameLiveness(s: State, s': State)
  {
    forall id :: id in s.recs ==> id in s'.recs && s'.recs[id].live == s.recs[id].live
  }

  lemma StandsAlike(reg: Registry, s: State, s': State, d: nat)
    requires Provenance(reg, s) && Persists(s, s') && SameLiveness(s, s') && d in s.recs
    requires Stands(s, s.recs[d])
    ensures Stands(s', s'.recs[d])
  {
  }

  /** A step that kills nothing forgets nothing, if its new records do not start
      out unsupported and unreviewed. */
  lemma QuietKeeps(reg: Registry, s: State, s': State, lost: set<Link>)
    requires Provenance(reg, s) && LinksExist(s, lost) && NothingForgotten(s, lost)
    requires Carries(s, s') && SameLiveness(s, s')
    requires forall d :: d in s'.recs && d !in s.recs ==> Stands(s', s'.recs[d]) || UnderReview(s', d)
    ensures NothingForgotten(s', lost)
  {
    forall d | Live(s', d) && !Stands(s', s'.recs[d]) ensures UnderReview(s', d) || Bereft(s', lost, d) {
      if d in s.recs {
        if Stands(s, s.recs[d]) { StandsAlike(reg, s, s', d); }
        if UnderReview(s, d) {
          ReviewCarries(reg, s, s', d, lost);
        } else {
          BereftCarries(s, s', d, lost);
        }
      }
    }
  }

  // A new record: an insert, or a conclusion with the links its writer owes.

  ghost predicate Adds(reg: Registry, s: State, rec: Rec, s': State)
  {
    && rec.live
    && (rec.routes != [] ==> rec.fact.Some?)
    && (forall i :: 0 <= i < |rec.routes| ==> Genuine(reg, s, s.nextId, rec.ns, rec.routes[i], rec.fact.value))
    && s' == s.(nextId := s.nextId + 1, recs := s.recs[s.nextId := rec],
        links := s.links + LinksOf(s.nextId, rec.routes))
  }

  lemma AddsProvenance(reg: Registry, s: State, rec: Rec, s': State)
    requires Provenance(reg, s) && Adds(reg, s, rec, s')
    ensures Provenance(reg, s') && Persists(s, s')
  {
    forall id, i | id in s'.recs && 0 <= i < |s'.recs[id].routes|
      ensures s'.recs[id].fact.Some? && Genuine(reg, s', id, s'.recs[id].ns, s'.recs[id].routes[i],
                  s'.recs[id].fact.value)
    {
      var r := s'.recs[id];
      GenuineStable(reg, s, s', id, r.ns, r.routes[i], r.fact.value);
    }
  }

  lemma OwedCite(reg: Registry, s: State, rec: Rec, s': State, l: Link)
    requires Adds(reg, s, rec, s') && l in LinksOf(s.nextId, rec.routes)
    ensures l.src == s.nextId && l.dst in s.recs && Cites(rec.routes, l.dst)
  {
    var i :| 0 <= i < |rec.routes| && l.dst in rec.routes[i].premises;
    assert Genuine(reg, s, s.nextId, rec.ns, rec.routes[i], rec.fact.value);
  }

  lemma AddsLinks(reg: Registry, s: State, rec: Rec, s': State, lost: set<Link>)
    requires Provenance(reg, s) && LinksExist(s, lost) && Adds(reg, s, rec, s')
    ensures LinksExist(s', lost)
  {
    hide LinksOf, Genuine, Cites;
    var owed := LinksOf(s.nextId, rec.routes);
    assert forall l :: l in s'.links <==> l in s.links || l in owed;
    forall l | l in owed ensures l.src == s.nextId && l.dst in s.recs && Cites(rec.routes, l.dst) {
      OwedCite(reg, s, rec, s', l);
    }
  }

  lemma AddsWatched(reg: Registry, s: State, rec: Rec, s': State, lost: set<Link>)
    requires Provenance(reg, s) && Watched(s, lost) && Adds(reg, s, rec, s')
    ensures Watched(s', lost)
  {
    AddsLinks(reg, s, rec, s', lost);
    forall d, p | Live(s', d) && Cites(s'.recs[d].routes, p) && Live(s', p)
      ensures Link(d, p) in s'.edges || Link(d, p) in s'.links || Link(d, p) in lost
    {
      if d == s.nextId {
        assert Link(d, p) in LinksOf(d, rec.routes);
      } else {
        CitedExist(reg, s, d, p);
      }
    }
  }

  lemma AddsReviewed(reg: Registry, s: State, rec: Rec, s': State)
    requires Adds(reg, s, rec, s')
    ensures Stands(s', rec) || LinkWillFail(s', s.nextId)
  {
    if !Stands(s', rec) {
      assert !RouteLive(s', rec.routes[0]);
      var k :| 0 <= k < |rec.routes[0].premises| && !Live(s', rec.routes[0].premises[k]);
      var p := rec.routes[0].premises[k];
      assert Cites(rec.routes, p);
      assert Link(s.nextId, p) in LinksOf(s.nextId, rec.routes);
      assert Link(s.nextId, p) in s'.links;
    }
  }

  lemma EdgesCarry(s: State, s': State)
    requires EdgesLive(s) && SameLiveness(s, s')
    requires forall l :: l in s'.edges ==> l in s.edges || (Live(s, l.src) && Live(s, l.dst))
    ensures EdgesLive(s')
  {
  }

  lemma AddsCarries(reg: Registry, s: State, rec: Rec, s': State)
    requires (forall id :: id in s.recs ==> id < s.nextId) && Adds(reg, s, rec, s')
    ensures Carries(s, s') && SameLiveness(s, s') && s'.edges == s.edges
    ensures s'.recs.Keys == s.recs.Keys + {s.nextId}
  {
    hide Genuine, LinksOf, Cites;
  }

  lemma AddsKeeps(reg: Registry, s: State, rec: Rec, s': State, lost: set<Link>)
    requires Inv(reg, s, lost) && Adds(reg, s, rec, s')
    ensures Inv(reg, s', lost)
  {
    AddsProvenance(reg, s, rec, s');
    AddsWatched(reg, s, rec, s', lost);
    AddsCarries(reg, s, rec, s');
    ExamCarries(reg, s, s');
    AddsReviewed(reg, s, rec, s');
    QuietKeeps(reg, s, s', lost);
    EdgesCarry(s, s');
  }

  // A fact adopted by a record that had none.

  lemma AdoptKeeps(reg: Registry, s: State, id: nat, t: Triple, s': State, lost: set<Link>)
    requires Inv(reg, s, lost) && Live(s, id) && s.recs[id].fact == None
    requires s' == s.(recs := s.recs[id := s.recs[id].(fact := Some(t))])
    ensures Inv(reg, s', lost)
  {
    assert s.recs[id].routes == [];
    AdoptCarries(s, id, t, s');
    CarriesProvenance(reg, s, s');
    ExamCarries(reg, s, s');
    QuietKeeps(reg, s, s', lost);
    EdgesCarry(s, s');
    WatchedCarries(s, s', lost);
  }

  lemma AdoptCarries(s: State, id: nat, t: Triple, s': State)
    requires Live(s, id) && s.recs[id].fact == None
    requires s' == s.(recs := s.recs[id := s.recs[id].(fact := Some(t))])
    ensures Carries(s, s') && SameLiveness(s, s') && s'.recs.Keys == s.recs.Keys
  {
  }

  lemma CarriesProvenance(reg: Registry, s: State, s': State)
    requires Provenance(reg, s) && Persists(s, s') && s'.recs.Keys == s.recs.Keys && s'.nextId == s.nextId
    ensures Provenance(reg, s')
  {
    forall id, i | id in s'.recs && 0 <= i < |s'.recs[id].routes|
      ensures s'.recs[id].fact.Some? && Genuine(reg, s', id, s'.recs[id].ns, s'.recs[id].routes[i],
                  s'.recs[id].fact.value)
    {
      var r := s.recs[id];
      GenuineStable(reg, s, s', id, r.ns, r.routes[i], r.fact.value);
    }
  }

  /** Watching survives any step that adds no record and drops neither a link
      nor an edge between two records that stay live. */
  lemma WatchedCarries(s: State, s': State, lost: set<Link>)
    requires Watched(s, lost) && Persists(s, s') && s'.recs.Keys == s.recs.Keys
    requires forall l :: l in s'.links ==> l in s.links
    requires forall l :: (l in s.edges || l in s.links) && Live(s', l.src) && Live(s', l.dst) ==>
               l in s'.edges || l in s'.links
    ensures Watched(s', lost)
  {
    forall d, p | Live(s', d) && Cites(s'.recs[d].routes, p) && Live(s', p)
      ensures Link(d, p) in s'.edges || Link(d, p) in s'.links || Link(d, p) in lost
    {
      assert Live(s, d) && Live(s, p) && Cites(s.recs[d].routes, p);
      assert Link(d, p) in s.edges || Link(d, p) in s.links || Link(d, p) in lost;
    }
  }

  // An edge: one a conclusion's writer owed, or one a client asked for.

  lemma LinkFrame(s: State, l: Link, s': State)
    requires l in s.links && s' == LinkEffect(s, l, true)
    ensures s'.recs == s.recs && Carries(s, s') && SameLiveness(s, s')
    ensures forall x :: x in s'.links ==> x in s.links
    ensures forall x :: x in s.edges || x in s.links ==>
              x in s'.edges || x in s'.links || !Live(s, x.src) || !Live(s, x.dst)
    ensures forall x :: x in s'.edges ==> x in s.edges || (Live(s, x.src) && Live(s, x.dst))
  {
    assert !Live(s, l.src) || !Live(s, l.dst) ==> s'.queue[|s.queue|] == l.src;
  }

  lemma LinkKeeps(reg: Registry, s: State, l: Link, s': State, lost: set<Link>)
    requires Inv(reg, s, lost) && l in s.links && s' == LinkEffect(s, l, true)
    ensures Inv(reg, s', lost)
  {
    LinkFrame(s, l, s');
    CarriesProvenance(reg, s, s');
    ExamCarries(reg, s, s');
    WatchedCarries(s, s', lost);
    EdgesCarry(s, s');
    QuietKeeps(reg, s, s', lost);
  }

  lemma RelateKeeps(reg: Registry, s: State, e: Link, s': State, lost: set<Link>)
    requires Inv(reg, s, lost) && Live(s, e.src) && Live(s, e.dst) && s' == s.(edges := s.edges + {e})
    ensures Inv(reg, s', lost)
  {
    hide Genuine, Cites, UnderReview, Stands;
    CarriesProvenance(reg, s, s');
    ExamCarries(reg, s, s');
    WatchedCarries(s, s', lost);
    EdgesCarry(s, s');
    QuietKeeps(reg, s, s', lost);
  }

  // A tombstone: a client's delete, or the retraction of a condemned record.

  ghost predicate Kills(s: State, id: nat, s': State)
  {
    && id in s.recs
    && Enqueued(s, id, s'.queue)
    && s' == Tombstone(s, id, s'.queue)
  }

  lemma KillFrame(s: State, id: nat, s': State)
    requires Kills(s, id, s')
    ensures Persists(s, s') && s'.recs.Keys == s.recs.Keys && Carries(s, s')
    ensures forall x :: Live(s', x) <==> Live(s, x) && x != id
    ensures forall x :: x in s'.edges <==> x in s.edges && x.src != id && x.dst != id
  {
  }

  /** A record loses its last route only with a premise it was linked to, or
      still had to be linked to, and then somebody will look at it again; or with
      one the link to which was lost. */
  lemma KillNotices(s: State, id: nat, s': State, d: nat, lost: set<Link>)
    requires Watched(s, lost) && Kills(s, id, s')
    requires Live(s', d) && Stands(s, s.recs[d]) && !Stands(s', s.recs[d])
    ensures UnderReview(s', d) || Bereft(s', lost, d)
  {
  }

  lemma KillForgetsNothing(reg: Registry, s: State, id: nat, s': State, lost: set<Link>)
    requires Provenance(reg, s) && Watched(s, lost) && NothingForgotten(s, lost) && Kills(s, id, s')
    ensures NothingForgotten(s', lost)
  {
    KillFrame(s, id, s');
    forall d | Live(s', d) && !Stands(s', s'.recs[d]) ensures UnderReview(s', d) || Bereft(s', lost, d) {
      if Stands(s, s.recs[d]) {
        KillNotices(s, id, s', d, lost);
      } else if UnderReview(s, d) {
        ReviewCarries(reg, s, s', d, lost);
      } else {
        BereftCarries(s, s', d, lost);
      }
    }
  }

  lemma KillKeeps(reg: Registry, s: State, id: nat, s': State, lost: set<Link>)
    requires Inv(reg, s, lost) && Kills(s, id, s')
    ensures Inv(reg, s', lost)
  {
    KillFrame(s, id, s');
    CarriesProvenance(reg, s, s');
    ExamCarries(reg, s, s');
    WatchedCarries(s, s', lost);
    KillForgetsNothing(reg, s, id, s', lost);
  }

  // The retraction job's own steps.

  /** Only the job's position changes, and `d`'s review moves with it. */
  lemma JobKeeps(reg: Registry, s: State, s': State, lost: set<Link>)
    requires Inv(reg, s, lost)
    requires s' == s.(queue := s'.queue, batch := s'.batch, exam := s'.exam)
    requires ExamHonest(s')
    requires forall d :: Live(s, d) && !Stands(s, s.recs[d]) && UnderReview(s, d) ==> UnderReview(s', d)
    ensures Inv(reg, s', lost)
  {
    CarriesProvenance(reg, s, s');
    WatchedCarries(s, s', lost);
    EdgesCarry(s, s');
    forall d | Live(s', d) && !Stands(s', s'.recs[d]) ensures UnderReview(s', d) || Bereft(s', lost, d) {
      if Stands(s, s.recs[d]) { StandsAlike(reg, s, s', d); }
      if Bereft(s, lost, d) { BereftCarries(s, s', d, lost); }
    }
  }

  lemma DrainKeeps(reg: Registry, s: State, n: nat, s': State, lost: set<Link>)
    requires Inv(reg, s, lost) && Next(reg, s, Drain(n), s')
    ensures Inv(reg, s', lost)
  {
    LinkReviewSame(s, s');
    forall d | UnderReview(s, d) ensures UnderReview(s', d) {
      assert s.queue == s.queue[..n] + s.queue[n..];
    }
    JobKeeps(reg, s, s', lost);
  }

  lemma OpenKeeps(reg: Registry, s: State, s': State, lost: set<Link>)
    requires Inv(reg, s, lost) && Next(reg, s, Open, s')
    ensures Inv(reg, s', lost)
  {
    var id := s.batch[0];
    assert s.batch == [id] + s.batch[1..];
    if s'.exam.Reading? {
      RouteHasPremise(reg, s, id, 0);
    }
    LinkReviewSame(s, s');
    forall d | Live(s, d) && !Stands(s, s.recs[d]) && UnderReview(s, d) ensures UnderReview(s', d) {
      if d == id {
        assert !RouteLive(s, s.recs[d].routes[0]);
        assert CheckWillFail(s', d);
      }
    }
    JobKeeps(reg, s, s', lost);
  }

  lemma RouteHasPremise(reg: Registry, s: State, id: nat, i: nat)
    requires Provenance(reg, s) && id in s.recs && i < |s.recs[id].routes|
    ensures s.recs[id].routes[i].premises != []
  {
  }

  lemma ReadHonest(reg: Registry, s: State, s': State)
    requires Provenance(reg, s) && ExamHonest(s) && Next(reg, s, Read, s')
    ensures ExamHonest(s')
  {
    var id, r := s.exam.id, s.exam.route;
    var routes := s.recs[id].routes;
    assert !Live(s, routes[r].premises[s.exam.premise]) ==> !RouteLive(s, routes[r]);
    if r + 1 < |routes| {
      RouteHasPremise(reg, s, id, r + 1);
    }
  }

  lemma ReadKeeps(reg: Registry, s: State, s': State, lost: set<Link>)
    requires Inv(reg, s, lost) && Next(reg, s, Read, s')
    ensures Inv(reg, s', lost)
  {
    ReadHonest(reg, s, s');
    if CheckWillFail(s, s.exam.id) && !Stands(s, s.recs[s.exam.id]) {
      ReadReviews(s, s');
    }
    LinkReviewSame(s, s');
    JobKeeps(reg, s, s', lost);
  }

  lemma LinkReviewSame(s: State, s': State)
    requires s'.recs == s.recs && s'.links == s.links
    ensures forall d :: LinkWillFail(s, d) ==> LinkWillFail(s', d)
  {
  }

  lemma ReadReviews(s: State, s': State)
    requires s.exam.Reading? && ExamInRange(s) && CheckWillFail(s, s.exam.id)
    requires !Stands(s, s.recs[s.exam.id])
    requires s' == s.(exam := s'.exam) && ExamInRange(s')
    requires
      var routes, r := s.recs[s.exam.id].routes, s.exam.route;
      s'.exam == if !Live(s, routes[r].premises[s.exam.premise]) then
                   (if r + 1 < |routes| then Reading(s.exam.id, r + 1, 0) else Condemned(s.exam.id))
                 else if s.exam.premise + 1 < |routes[r].premises| then s.exam.(premise := s.exam.premise + 1)
                 else Idle
    ensures CheckWillFail(s', s.exam.id)
  {
  }

  lemma WithdrawKeeps(reg: Registry, s: State, s': State, lost: set<Link>)
    requires Inv(reg, s, lost) && Next(reg, s, Withdraw, s')
    ensures Inv(reg, s', lost)
  {
    var id := s.exam.id;
    var mid := s;
    if Live(s, id) {
      mid := Tombstone(s, id, s'.queue);
      KillKeeps(reg, s, id, mid, lost);
    }
    LinkReviewSame(mid, s');
    JobKeeps(reg, mid, s', lost);
  }

  // A link refused by a limit.

  /** The per-record relationship cap and the tenant quota may refuse the edge to a
      premise, which the writer only logs. That does no harm when the edge was not
      needed: an end is already gone (the refusal is then a not-found, which queues
      the conclusion), the edge exists, or the same link is owed a second time. */
  predicate Harmless(s: State, step: Step)
  {
    step.LinkPremise? && !step.admitted ==>
      !Live(s, step.link.src) || !Live(s, step.link.dst) || step.link in s.edges || s.links[step.link] > 1
  }

  lemma LossWatched(s: State, l: Link, s': State, lost: set<Link>)
    requires Watched(s, lost) && l in s.links && s' == s.(links := s.links - multiset{l}) && l !in s'.links
    ensures Watched(s', lost + {l})
  {
    hide Cites;
    assert forall x :: x in s.links <==> x in s'.links || x == l;
  }

  lemma LossForgets(s: State, l: Link, s': State, lost: set<Link>)
    requires NothingForgotten(s, lost) && s' == s.(links := s.links - multiset{l}) && Live(s, l.dst)
    ensures NothingForgotten(s', lost + {l})
  {
    forall d | Live(s', d) && !Stands(s', s'.recs[d]) ensures UnderReview(s', d) || Bereft(s', lost + {l}, d) {
      assert !Stands(s, s.recs[d]);
      if LinkWillFail(s, d) {
        var x :| x in s.links && x.src == d && !Live(s, x.dst);
        assert x in s'.links;
      }
    }
  }

  lemma LossKeeps(reg: Registry, s: State, l: Link, s': State, lost: set<Link>)
    requires Inv(reg, s, lost) && l in s.links && s' == s.(links := s.links - multiset{l}) && l !in s'.links
    requires Live(s, l.dst)
    ensures Inv(reg, s', lost + {l})
  {
    hide Provenance, Watched, NothingForgotten, ExamHonest, EdgesLive;
    LossWatched(s, l, s', lost);
    LossForgets(s, l, s', lost);
    CarriesProvenance(reg, s, s');
    ExamCarries(reg, s, s');
    EdgesCarry(s, s');
  }

  /** The links lost once `step` is done. */
  function LostAfter(s: State, step: Step, lost: set<Link>): set<Link>
  {
    if Harmless(s, step) then lost else lost + {step.link}
  }

  /** The invariant survives a refusal exactly when the refusal is harmless, and
      otherwise once the link is counted as lost. */
  lemma RefusedLinkExactly(reg: Registry, s: State, l: Link, lost: set<Link>)
    requires Inv(reg, s, lost) && l in s.links
    ensures Inv(reg, LinkEffect(s, l, false), lost) <==> Harmless(s, LinkPremise(l, false))
    ensures Inv(reg, LinkEffect(s, l, false), LostAfter(s, LinkPremise(l, false), lost))
  {
    var s' := LinkEffect(s, l, false);
    if !Live(s, l.src) || !Live(s, l.dst) || l in s.edges {
      assert s' == LinkEffect(s, l, true);
      LinkKeeps(reg, s, l, s', lost);
    } else if s.links[l] > 1 {
      assert forall x :: x in s.links <==> x in s'.links;
      CarriesProvenance(reg, s, s');
      ExamCarries(reg, s, s');
      WatchedCarries(s, s', lost);
      EdgesCarry(s, s');
      QuietKeeps(reg, s, s', lost);
    } else {
      assert Live(s', l.src) && Live(s', l.dst) && Cites(s'.recs[l.src].routes, l.dst);
      assert Link(l.src, l.dst) == l && l !in s'.edges && l !in s'.links && l !in lost;
      assert !Watched(s', lost);
      LossKeeps(reg, s, l, s', lost);
    }
  }

  /** A step keeps the invariant exactly when it does not refuse a link that is
      needed, and always keeps it up to the links lost. */
  lemma StepKeeps(reg: Registry, s: State, step: Step, s': State, lost: set<Link>)
    requires Inv(reg, s, lost) && Next(reg, s, step, s')
    ensures Inv(reg, s', lost) <==> Harmless(s, step)
    ensures Inv(reg, s', LostAfter(s, step, lost))
  {
    hide Inv, Harmless;
    assert !step.LinkPremise? || step.admitted ==> Harmless(s, step) by { HarmlessUnless(s, step); }
    match step
    case Insert(ns, fact) =>
      assert s.links + LinksOf(s.nextId, []) == s.links;
      AddsKeeps(reg, s, Rec(ns, fact, [], true), s', lost);
    case Adopt(id, t) => AdoptKeeps(reg, s, id, t, s', lost);
    case Conclude(ns, t, routes) => AddsKeeps(reg, s, Rec(ns, Some(t), routes, true), s', lost);
    case LinkPremise(l, admitted) =>
      if admitted {
        LinkKeeps(reg, s, l, s', lost);
      } else {
        RefusedLinkExactly(reg, s, l, lost);
      }
    case Relate(e) => RelateKeeps(reg, s, e, s', lost);
    case Delete(id) => KillKeeps(reg, s, id, s', lost);
    case Drain(n) => DrainKeeps(reg, s, n, s', lost);
    case Open => OpenKeeps(reg, s, s', lost);
    case Read => ReadKeeps(reg, s, s', lost);
    case Withdraw => WithdrawKeeps(reg, s, s', lost);
  }

  lemma HarmlessUnless(s: State, step: Step)
    ensures !step.LinkPremise? || step.admitted ==> Harmless(s, step)
  {
  }

  // ----- whole runs ----------------------------------------------------------------

  /** `states` is a run of `steps` from the empty store. */
  ghost predicate Run(reg: Registry, steps: seq<Step>, states: seq<State>)
  {
    && |states| == |steps| + 1
    && states[0] == Empty
    && forall i :: 0 <= i < |steps| ==> Next(reg, states[i], steps[i], states[i + 1])
  }

  /** No needed link was refused in the first `n` steps. */
  ghost predicate AllHarmless(steps: seq<Step>, states: seq<State>, n: nat)
    requires n <= |steps| <= |states|
  {
    forall i :: 0 <= i < n ==> Harmless(states[i], steps[i])
  }

  ghost predicate InvUpTo(reg: Registry, states: seq<State>, n: nat)
    requires n < |states|
  {
    forall k :: 0 <= k <= n ==> Inv(reg, states[k], {})
  }

  /** The links that were needed and refused in the first `n` steps. */
  function Lost(steps: seq<Step>, states: seq<State>, n: nat): set<Link>
    requires n <= |steps| <= |states|
  {
    if n == 0 then {} else LostAfter(states[n - 1], steps[n - 1], Lost(steps, states, n - 1))
  }

  /** Of all runs: the invariant holds at every point up to the links lost by then. */
  lemma {:induction false} RunKeeps(reg: Registry, steps: seq<Step>, states: seq<State>, n: nat)
    requires Run(reg, steps, states) && n <= |steps|
    ensures Inv(reg, states[n], Lost(steps, states, n))
  {
    hide Inv, Next, LostAfter;
    if n == 0 {
      EmptyInv(reg);
    } else {
      RunKeeps(reg, steps, states, n - 1);
      StepKeeps(reg, states[n - 1], steps[n - 1], states[n], Lost(steps, states, n - 1));
    }
  }

  /** Of all runs: the invariant has held throughout, with nothing lost, exactly when
      no needed link was refused. */
  lemma {:induction false} RunKeepsExactly(reg: Registry, steps: seq<Step>, states: seq<State>, n: nat)
    requires Run(reg, steps, states) && n <= |steps|
    ensures InvUpTo(reg, states, n) <==> AllHarmless(steps, states, n)
    ensures Lost(steps, states, n) == {} <==> AllHarmless(steps, states, n)
  {
    hide Inv, Next, Harmless;
    if n == 0 {
      EmptyInv(reg);
    } else {
      RunKeepsExactly(reg, steps, states, n - 1);
      if Inv(reg, states[n - 1], {}) {
        StepKeeps(reg, states[n - 1], steps[n - 1], states[n], {});
      }
    }
  }

  lemma EmptyInv(reg: Registry)
    ensures Inv(reg, Empty, {})
  {
  }

  /** The part of the invariant a refused link cannot touch. */
  ghost predicate Sound(reg: Registry, s: State) { Provenance(reg, s) && ExamHonest(s) }

  lemma StepSound(reg: Registry, s: State, step: Step, s': State)
    requires Sound(reg, s) && Next(reg, s, step, s')
    ensures Sound(reg, s')
  {
    match step
    case Insert(ns, fact) =>
      assert s.links + LinksOf(s.nextId, []) == s.links;
      AddsSound(reg, s, Rec(ns, fact, [], true), s');
    case Adopt(id, t) =>
      assert s.recs[id].routes == [];
      AdoptCarries(s, id, t, s');
      PersistsSound(reg, s, s');
    case Conclude(ns, t, routes) => AddsSound(reg, s, Rec(ns, Some(t), routes, true), s');
    case LinkPremise(_, _) => PersistsSound(reg, s, s');
    case Relate(_) => PersistsSound(reg, s, s');
    case Delete(id) =>
      KillFrame(s, id, s');
      PersistsSound(reg, s, s');
    case Drain(_) => PersistsSound(reg, s, s');
    case Open =>
      JobSound(reg, s, s');
      if s'.exam.Reading? {
        RouteHasPremise(reg, s, s.batch[0], 0);
      }
    case Read =>
      JobSound(reg, s, s');
      ReadHonest(reg, s, s');
    case Withdraw =>
      if Live(s, s.exam.id) {
        var mid := Tombstone(s, s.exam.id, s'.queue);
        KillFrame(s, s.exam.id, mid);
        CarriesProvenance(reg, s, mid);
        JobSound(reg, mid, s');
      } else {
        JobSound(reg, s, s');
      }
  }

  lemma AddsSound(reg: Registry, s: State, rec: Rec, s': State)
    requires Sound(reg, s) && Adds(reg, s, rec, s')
    ensures Sound(reg, s')
  {
    AddsProvenance(reg, s, rec, s');
    ExamCarries(reg, s, s');
  }

  lemma PersistsSound(reg: Registry, s: State, s': State)
    requires Sound(reg, s) && Persists(s, s') && s'.recs.Keys == s.recs.Keys && s'.nextId == s.nextId
             && s'.exam == s.exam
    ensures Sound(reg, s')
  {
    CarriesProvenance(reg, s, s');
    ExamCarries(reg, s, s');
  }

  lemma JobSound(reg: Registry, s: State, s': State)
    requires Provenance(reg, s) && s'.recs == s.recs && s'.nextId == s.nextId
    ensures Provenance(reg, s')
  {
    CarriesProvenance(reg, s, s');
  }

  lemma {:induction false} RunSound(reg: Registry, steps: seq<Step>, states: seq<State>, n: nat)
    requires Run(reg, steps, states) && n <= |steps|
    ensures Sound(reg, states[n])
  {
    hide Sound, Next;
    if n == 0 {
      EmptySound(reg);
    } else {
      RunSound(reg, steps, states, n - 1);
      StepSound(reg, states[n - 1], steps[n - 1], states[n]);
    }
  }

  lemma EmptySound(reg: Registry)
    ensures Sound(reg, Empty)
  {
  }

  /** No retraction is wrong, in any run at all: at the moment the job withdraws a
      record, every one of its routes has lost a premise. */
  lemma WithdrawnHadNoSupport(reg: Registry, steps: seq<Step>, states: seq<State>, n: nat)
    requires Run(reg, steps, states)
    requires n < |steps| && steps[n].Withdraw?
    ensures var s := states[n];
            s.exam.Condemned? && s.exam.id in s.recs && !Stands(s, s.recs[s.exam.id])
  {
    RunSound(reg, steps, states, n);
    assert Next(reg, states[n], steps[n], states[n + 1]);
  }

  /** Nothing is owed to anyone: no link outstanding, no check queued or running. */
  predicate Quiescent(s: State)
  {
    s.links == multiset{} && s.queue == [] && s.batch == [] && s.exam == Idle
  }

  datatype Proof = Proof(id: nat, rule: Rule, subs: seq<Proof>)

  /** A finite derivation of a record's triple: each node is a live record of the
      namespace, a leaf is an asserted one, and an inner node follows by its rule
      from the triples of its children. */
  ghost predicate Proves(reg: Registry, s: State, ns: string, p: Proof, t: Triple)
    decreases p
  {
    && Live(s, p.id)
    && s.recs[p.id].ns == ns
    && s.recs[p.id].fact == Some(t)
    && (p.subs == [] ==> s.recs[p.id].routes == [])
    && (p.subs != [] ==>
          && (forall k :: 0 <= k < |p.subs| ==> p.subs[k].id in s.recs && s.recs[p.subs[k].id].fact.Some?)
          && (forall k :: 0 <= k < |p.subs| ==> Proves(reg, s, ns, p.subs[k], s.recs[p.subs[k].id].fact.value))
          && Instance(reg, p.rule, FactsOf(s, seq(|p.subs|, k requires 0 <= k < |p.subs| => p.subs[k].id)), t))
  }

  ghost predicate AllStand(s: State) { forall d :: Live(s, d) ==> Stands(s, s.recs[d]) }

  /** Whoever outlived a premise behind a lost link has another route. */
  ghost predicate Recovered(s: State, lost: set<Link>)
  {
    forall l :: l in lost && Live(s, l.src) && !Live(s, l.dst) ==> Stands(s, s.recs[l.src])
  }

  /** At rest every live conclusion is supported exactly when those that lost a link
      are: nothing else can go wrong. */
  lemma RestingExactly(reg: Registry, s: State, lost: set<Link>)
    requires Inv(reg, s, lost) && Quiescent(s)
    ensures AllStand(s) <==> Recovered(s, lost)
  {
    forall d | Recovered(s, lost) && Live(s, d) ensures Stands(s, s.recs[d]) {
      assert !UnderReview(s, d);
    }
  }

  /** A supported derived record has a route whose premises are all live. */
  lemma SupportOf(reg: Registry, s: State, d: nat) returns (r: Route)
    requires Provenance(reg, s) && AllStand(s) && Live(s, d) && s.recs[d].routes != []
    ensures s.recs[d].fact.Some? && Genuine(reg, s, d, s.recs[d].ns, r, s.recs[d].fact.value)
    ensures forall k :: 0 <= k < |r.premises| ==> Live(s, r.premises[k])
  {
    assert Stands(s, s.recs[d]);
    var i :| 0 <= i < |s.recs[d].routes| && RouteLive(s, s.recs[d].routes[i]);
    r := s.recs[d].routes[i];
  }

  lemma {:induction false} Grounded(reg: Registry, s: State, d: nat) returns (p: Proof)
    requires Provenance(reg, s) && AllStand(s) && Live(s, d) && s.recs[d].fact.Some?
    ensures p.id == d && Proves(reg, s, s.recs[d].ns, p, s.recs[d].fact.value)
    decreases d + 1, 0
  {
    if s.recs[d].routes == [] {
      p := Proof(d, Symmetric, []);
    } else {
      var r := SupportOf(reg, s, d);
      var subs := GroundedAll(reg, s, d, s.recs[d].ns, r.premises);
      p := Proof(d, r.rule, subs);
      assert seq(|subs|, k requires 0 <= k < |subs| => subs[k].id) == r.premises;
    }
  }

  lemma {:induction false} GroundedAll(reg: Registry, s: State, d: nat, ns: string, ids: seq<nat>)
      returns (ps: seq<Proof>)
    requires Provenance(reg, s) && AllStand(s)
    requires forall k :: 0 <= k < |ids| ==>
               ids[k] < d && Live(s, ids[k]) && s.recs[ids[k]].ns == ns && s.recs[ids[k]].fact.Some?
    ensures |ps| == |ids|
    ensures forall k :: 0 <= k < |ids| ==>
              ps[k].id == ids[k] && Proves(reg, s, ns, ps[k], s.recs[ids[k]].fact.value)
    decreases d, |ids|
  {
    if ids == [] {
      ps := [];
    } else {
      var last := |ids| - 1;
      var front := GroundedAll(reg, s, d, ns, ids[..last]);
      var p := Grounded(reg, s, ids[last]);
      ps := front + [p];
    }
  }

  /** The triples live asserted records of a namespace state. */
  function AssertedIn(s: State, ns: string): set<Triple>
  {
    set id | id in s.recs && s.recs[id].live && s.recs[id].ns == ns && s.recs[id].routes == [] && s.recs[id].fact.Some?
      :: s.recs[id].fact.value
  }

  lemma {:induction false} ProofMeansClosure(reg: Registry, s: State, ns: string, p: Proof, t: Triple)
    requires Proves(reg, s, ns, p, t)
    ensures InClosure(reg, AssertedIn(s, ns), t)
    decreases p
  {
    if p.subs == [] {
      assert t in AssertedIn(s, ns);
      assert Derivable(reg, AssertedIn(s, ns), 0, t);
    } else {
      var ids := seq(|p.subs|, k requires 0 <= k < |p.subs| => p.subs[k].id);
      var ts := FactsOf(s, ids);
      forall k | 0 <= k < |ts| ensures InClosure(reg, AssertedIn(s, ns), ts[k]) {
        ProofMeansClosure(reg, s, ns, p.subs[k], ts[k]);
      }
      ClosureStep(reg, AssertedIn(s, ns), p.rule, ts, t);
    }
  }

  /** The main result. However client writes, inference passes and retraction steps
      interleave, whenever nothing is outstanding every live record's triple has a
      finite proof from live asserted facts of its own namespace, unless a conclusion
      outlived both a premise whose link was lost to a limit and its other routes. */
  lemma QuiescentStoreIsEntailed(reg: Registry, steps: seq<Step>, states: seq<State>, n: nat, d: nat)
    requires Run(reg, steps, states) && n <= |steps|
    requires Quiescent(states[n]) && Recovered(states[n], Lost(steps, states, n))
    requires Live(states[n], d) && states[n].recs[d].fact.Some?
    ensures var s := states[n];
            && (exists p: Proof :: p.id == d && Proves(reg, s, s.recs[d].ns, p, s.recs[d].fact.value))
            && InClosure(reg, AssertedIn(s, s.recs[d].ns), s.recs[d].fact.value)
  {
    var s := states[n];
    RunKeeps(reg, steps, states, n);
    RestingExactly(reg, s, Lost(steps, states, n));
    var p := Grounded(reg, s, d);
    ProofMeansClosure(reg, s, s.recs[d].ns, p, s.recs[d].fact.value);
  }

  /** In particular when no needed link was refused; and the condition is exact: a
      store at rest has an unsupported live record precisely when it fails. */
  lemma QuiescentExactly(reg: Registry, steps: seq<Step>, states: seq<State>, n: nat)
    requires Run(reg, steps, states) && n <= |steps| && Quiescent(states[n])
    ensures AllStand(states[n]) <==> Recovered(states[n], Lost(steps, states, n))
    ensures AllHarmless(steps, states, n) ==> AllStand(states[n])
  {
    RunKeeps(reg, steps, states, n);
    RunKeepsExactly(reg, steps, states, n);
    RestingExactly(reg, states[n], Lost(steps, states, n));
  }

  // ----- what a refused link costs ---------------------------------------------------

  lemma {:induction false} NothingFollowsFromNothing(reg: Registry, n: nat, t: Triple)
    ensures !Derivable(reg, {}, n, t)
  {
    if n > 0 {
      forall rule: Rule, ps: seq<Triple> ensures !DerivableBy(reg, {}, n, rule, ps, t) {
        if |ps| > 0 {
          NothingFollowsFromNothing(reg, n - 1, ps[0]);
        }
      }
    }
  }

  // The strand: "7 knows 8" is asserted, "8 knows 7" concluded, the link refused.

  const KnowsReg: Registry := map["knows" := Spec(true, false, None)]
  const Told := Rec("ns", Some(Triple(7, "knows", IdObj(8))), [], true)
  const Concluded := Rec("ns", Some(Triple(8, "knows", IdObj(7))), [Route(Symmetric, [1])], true)

  function StrandSteps(): seq<Step>
  {
    [Insert("ns", Told.fact), Conclude("ns", Concluded.fact.value, Concluded.routes),
     LinkPremise(Link(2, 1), false), Delete(1)]
  }

  function StrandStates(): (r: seq<State>)
    ensures |r| == 5
  {
    [Empty,
     Empty.(nextId := 2, recs := map[1 := Told]),
     Empty.(nextId := 3, recs := map[1 := Told, 2 := Concluded], links := multiset{Link(2, 1)}),
     Empty.(nextId := 3, recs := map[1 := Told, 2 := Concluded]),
     Empty.(nextId := 3, recs := map[1 := Told.(live := false), 2 := Concluded])]
  }

  lemma StrandConcludes()
    ensures Next(KnowsReg, StrandStates()[1], StrandSteps()[1], StrandStates()[2])
  {
    var s := StrandStates()[1];
    var r := Concluded.routes[0];
    assert FactsOf(s, r.premises) == [Told.fact.value];
    assert Genuine(KnowsReg, s, 2, "ns", r, Concluded.fact.value);
    assert LinksTo(2, r.premises) == [Link(2, 1)];
    assert LinksOf(2, [r]) == multiset{Link(2, 1)};
  }

  lemma StrandRefuses()
    ensures Next(KnowsReg, StrandStates()[2], StrandSteps()[2], StrandStates()[3])
  {
    assert multiset{Link(2, 1)} - multiset{Link(2, 1)} == multiset{};
  }

  lemma StrandDeletes()
    ensures Next(KnowsReg, StrandStates()[3], StrandSteps()[3], StrandStates()[4])
  {
    var s := StrandStates()[3];
    assert StrandStates()[4] == Tombstone(s, 1, []);
  }

  /** A run in which one link is refused and its premise then deleted: the store
      comes to rest with a live conclusion and no asserted fact at all. */
  lemma RefusedLinkStrands()
    ensures Run(KnowsReg, StrandSteps(), StrandStates()) && !Harmless(StrandStates()[2], StrandSteps()[2])
    ensures var s := StrandStates()[4];
            Quiescent(s) && Live(s, 2) && !InClosure(KnowsReg, AssertedIn(s, "ns"), Concluded.fact.value)
  {
    StrandConcludes();
    StrandRefuses();
    StrandDeletes();
    assert AssertedIn(StrandStates()[4], "ns") == {};
    forall n: nat ensures !Derivable(KnowsReg, {}, n, Concluded.fact.value) {
      NothingFollowsFromNothing(KnowsReg, n, Concluded.fact.value);
    }
  }
}
