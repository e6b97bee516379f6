/** The operations of the truth-maintenance layer in the form the server runs
    them: a store updated in place, and the retraction job that drains its queue. */
module Retraction {
  import opened Facts
  import opened TruthMaintenance

  ghost function LiveIds(recs: map<nat, Rec>): set<nat> { set id | id in recs && recs[id].live }

  lemma OneFewer(recs: map<nat, Rec>, id: nat, recs': map<nat, Rec>)
    requires id in recs && recs[id].live && recs' == recs[id := recs[id].(live := false)]
    ensures LiveIds(recs') < LiveIds(recs) && |LiveIds(recs')| == |LiveIds(recs)| - 1
  {
    assert LiveIds(recs') == LiveIds(recs) - {id};
  }

  lemma LinksOfSplit(id: nat, routes: seq<Route>, i: nat)
    requires i < |routes|
    ensures LinksOf(id, routes[i..]) == multiset(LinksTo(id, routes[i].premises)) + LinksOf(id, routes[i + 1..])
  {
  }

  lemma LinksOfNone(id: nat, routes: seq<Route>)
    ensures LinksOf(id, routes[|routes|..]) == multiset{}
  {
  }

  /** No limit refuses an edge of the first `n` routes. */
  ghost predicate AllAdmitted(id: nat, routes: seq<Route>, n: nat, admits: Link -> bool)
    requires n <= |routes|
  {
    forall i, k :: 0 <= i < n && 0 <= k < |routes[i].premises| ==> admits(Link(id, routes[i].premises[k]))
  }

  lemma AdmittedNext(id: nat, routes: seq<Route>, i: nat, admits: Link -> bool)
    requires i < |routes|
    ensures AllAdmitted(id, routes, i + 1, admits) ==>
              AllAdmitted(id, routes, i, admits) && forall k :: 0 <= k < |routes[i].premises| ==>
                  admits(Link(id, routes[i].premises[k]))
  {
  }

  predicate IsLive(recs: map<nat, Rec>, id: nat) { id in recs && recs[id].live }

  /** A conclusion with a premise already gone is queued for judgement. */
  ghost predicate GoneQueued(recs: map<nat, Rec>, queue: seq<nat>, id: nat, routes: seq<Route>, n: nat)
    requires n <= |routes|
  {
    forall i, k :: 0 <= i < n && 0 <= k < |routes[i].premises| && !IsLive(recs, routes[i].premises[k]) ==> id in queue
  }

  lemma NoneYet(recs: map<nat, Rec>, queue: seq<nat>, id: nat, routes: seq<Route>)
    ensures GoneQueued(recs, queue, id, routes, 0)
  {
  }

  lemma GoneNext(recs: map<nat, Rec>, was: seq<nat>, queue: seq<nat>, id: nat, routes: seq<Route>, i: nat)
    requires i < |routes| && GoneQueued(recs, was, id, routes, i) && was <= queue
    requires forall k :: 0 <= k < |routes[i].premises| && !IsLive(recs, routes[i].premises[k]) ==> id in queue
    ensures GoneQueued(recs, queue, id, routes, i + 1)
  {
  }

  /** What is owed once the first `j` premises of a route are linked. */
  ghost function OwedFrom(id: nat, ps: seq<nat>, j: nat, rest: multiset<Link>): multiset<Link>
    requires j <= |ps|
  {
    multiset(LinksTo(id, ps)[j..]) + rest
  }

  lemma OwedEnds(id: nat, ps: seq<nat>, rest: multiset<Link>)
    ensures OwedFrom(id, ps, 0, rest) == multiset(LinksTo(id, ps)) + rest && OwedFrom(id, ps, |ps|, rest) == rest
  {
  }

  lemma OwedNext(id: nat, ps: seq<nat>, j: nat, rest: multiset<Link>)
    requires j < |ps|
    ensures Link(id, ps[j]) in OwedFrom(id, ps, j, rest)
    ensures OwedFrom(id, ps, j, rest) - multiset{Link(id, ps[j])} == OwedFrom(id, ps, j + 1, rest)
  {
    assert LinksTo(id, ps)[j..] == [Link(id, ps[j])] + LinksTo(id, ps)[j + 1..];
  }

  /** A judged id leaves the batch without being forgotten: it is dead, or stands. */
  lemma JudgedKeeps(reg: Registry, s: State, s': State, lost: set<Link>)
    requires Inv(reg, s, lost) && s.exam == Idle && s.batch != [] && s' == s.(batch := s.batch[1..])
    requires Live(s, s.batch[0]) ==> Stands(s, s.recs[s.batch[0]])
    ensures Inv(reg, s', lost)
  {
    assert s.batch == [s.batch[0]] + s.batch[1..];
    LinkReviewSame(s, s');
    JobKeeps(reg, s, s', lost);
  }

  class Store {
    const reg: Registry
    var nextId: nat
    var recs: map<nat, Rec>
    var edges: set<Link>
    var queue: seq<nat>
    ghost var owed: multiset<Link>  // links the running conclusion writer still owes
    ghost var drained: seq<nat>     // the running retraction step's unread batch
    ghost var lost: set<Link>       // needed links a limit refused

    ghost function View(): State
      reads this
    {
      State(nextId, recs, edges, owed, queue, drained, Idle)
    }

    ghost predicate Valid()
      reads this
    {
      Inv(reg, View(), lost)
    }

    constructor (reg: Registry)
      ensures this.reg == reg && View() == Empty && lost == {} && Valid()
    {
      this.reg := reg;
      nextId, recs, edges, queue := 1, map[], {}, [];
      owed, drained, lost := multiset{}, [], {};
    }

    /** qe_insert of a record a client asserts. */
    method Insert(ns: string, fact: Option<Triple>) returns (id: nat)
      requires Valid()
      modifies this`nextId, this`recs
      ensures Valid() && id == old(nextId)
      ensures Next(reg, old(View()), Step.Insert(ns, fact), View())
    {
      id := nextId;
      recs := recs[id := Rec(ns, fact, [], true)];
      nextId := nextId + 1;
      StepKeeps(reg, old(View()), Step.Insert(ns, fact), View(), lost);
    }

    /** db_retract_enqueue: push every conclusion that cites `id`. */
    method Enqueue(id: nat)
      modifies this`queue
      ensures Enqueued(old(View()), id, queue)
    {
      var sources := set l | l in edges && l.dst == id :: l.src;
      var rest := sources;
      while rest != {}
        invariant rest <= sources
        invariant |old(queue)| <= |queue| && queue[..|old(queue)|] == old(queue)
        invariant forall d :: d in sources && d !in rest ==> d in queue
        invariant forall i :: |old(queue)| <= i < |queue| ==> queue[i] in sources
      {
        var d :| d in rest;
        queue := queue + [d];
        rest := rest - {d};
      }
      forall d | CitedBy(old(View()), id, d) ensures d in queue {
        assert Link(d, id) in edges;
      }
    }

    /** qe_delete: dependents are captured before the edges that name them go. */
    method Delete(id: nat) returns (ok: bool)
      modifies this`recs, this`edges, this`queue
      ensures ok <==> old(Live(View(), id))
      ensures ok ==> Kills(old(View()), id, View())
      ensures !ok ==> View() == old(View())
    {
      if id !in recs || !recs[id].live {
        return false;
      }
      Enqueue(id);
      edges := set l | l in edges && l.src != id && l.dst != id;
      recs := recs[id := recs[id].(live := false)];
      ok := true;
    }

    /** qe_relate as the conclusion's writer calls it, with its NOT_FOUND branch. */
    method LinkPremise(l: Link, admitted: bool)
      modifies this`edges, this`queue, this`owed
      ensures View() == LinkEffect(old(View()), l, admitted)
      ensures owed == old(owed) - multiset{l} && old(queue) <= queue
      ensures !IsLive(recs, l.dst) ==> l.src in queue
    {
      owed := owed - multiset{l};
      if l.src !in recs || !recs[l.src].live || l.dst !in recs || !recs[l.dst].live {
        queue := queue + [l.src];
      } else if l !in edges && admitted {
        edges := edges + {l};
      }
    }

    /** Paying an owed link keeps the invariant; only a limit makes it lost. */
    method LinkOwed(l: Link, admitted: bool)
      requires Valid() && l in owed
      modifies this`edges, this`queue, this`owed, this`lost
      ensures Valid() && lost == LostAfter(old(View()), Step.LinkPremise(l, admitted), old(lost))
      ensures admitted ==> lost == old(lost)
      ensures owed == old(owed) - multiset{l} && old(queue) <= queue
      ensures !IsLive(recs, l.dst) ==> l.src in queue
    {
      hide Inv, LinkEffect;
      ghost var before := View();
      LinkPremise(l, admitted);
      StepKeeps(reg, before, Step.LinkPremise(l, admitted), View(), lost);
      lost := LostAfter(before, Step.LinkPremise(l, admitted), lost);
    }

    /** The inner loop of write_conclusion: link one route's premises in order. */
    method LinkRoute(id: nat, ps: seq<nat>, admits: Link -> bool, ghost rest: multiset<Link>)
      requires Valid() && owed == multiset(LinksTo(id, ps)) + rest
      modifies this`edges, this`queue, this`owed, this`lost
      ensures Valid() && owed == rest && old(queue) <= queue
      ensures forall k :: 0 <= k < |ps| && !IsLive(recs, ps[k]) ==> id in queue
      ensures (forall k :: 0 <= k < |ps| ==> admits(Link(id, ps[k]))) ==> lost == old(lost)
    {
      hide Inv, OwedFrom, Store.Valid;
      OwedEnds(id, ps, rest);
      for j := 0 to |ps|
        invariant Valid() && owed == OwedFrom(id, ps, j, rest) && old(queue) <= queue
        invariant forall k :: 0 <= k < j && !IsLive(recs, ps[k]) ==> id in queue
        invariant (forall k :: 0 <= k < j ==> admits(Link(id, ps[k]))) ==> lost == old(lost)
      {
        OwedNext(id, ps, j, rest);
        LinkOwed(Link(id, ps[j]), admits(Link(id, ps[j])));
      }
    }

    /** The insert at the head of write_conclusion. */
    method InsertConclusion(ns: string, t: Triple, routes: seq<Route>) returns (id: nat)
      requires Valid() && owed == multiset{}
      requires routes != [] && forall i :: 0 <= i < |routes| ==> Genuine(reg, View(), nextId, ns, routes[i], t)
      modifies this`nextId, this`recs, this`owed
      ensures Valid() && id == old(nextId) && nextId == id + 1
      ensures recs == old(recs)[id := Rec(ns, Some(t), routes, true)] && owed == LinksOf(id, routes)
    {
      hide Inv, Genuine, LinksOf;
      id := nextId;
      recs := recs[id := Rec(ns, Some(t), routes, true)];
      nextId := nextId + 1;
      owed := LinksOf(id, routes);
      assert old(View()).links + LinksOf(id, routes) == owed;
      AddsKeeps(reg, old(View()), Rec(ns, Some(t), routes, true), View(), lost);
    }

    /** write_conclusion: insert the derived record, then link each premise. */
    method WriteConclusion(ns: string, t: Triple, routes: seq<Route>, admits: Link -> bool) returns (id: nat)
      requires Valid() && owed == multiset{}
      requires routes != [] && forall i :: 0 <= i < |routes| ==> Genuine(reg, View(), nextId, ns, routes[i], t)
      modifies this`nextId, this`recs, this`edges, this`queue, this`owed, this`lost
      ensures Valid() && owed == multiset{}
      ensures AllAdmitted(id, routes, |routes|, admits) ==> lost == old(lost)
      ensures GoneQueued(recs, queue, id, routes, |routes|)
      ensures id == old(nextId) && nextId == id + 1 && recs == old(recs)[id := Rec(ns, Some(t), routes, true)]
    {
      hide Inv, Genuine, LinksOf, Cites, AllAdmitted, GoneQueued;
      id := InsertConclusion(ns, t, routes);
      assert routes[0..] == routes;
      assert GoneQueued(recs, queue, id, routes, 0) by { NoneYet(recs, queue, id, routes); }
      for i := 0 to |routes|
        invariant Valid() && owed == LinksOf(id, routes[i..])
        invariant AllAdmitted(id, routes, i, admits) ==> lost == old(lost)
        invariant GoneQueued(recs, queue, id, routes, i)
        invariant nextId == id + 1 && recs == old(recs)[id := Rec(ns, Some(t), routes, true)]
      {
        LinksOfSplit(id, routes, i);
        AdmittedNext(id, routes, i, admits);
        ghost var was := queue;
        LinkRoute(id, routes[i].premises, admits, LinksOf(id, routes[i + 1..]));
        GoneNext(recs, was, queue, id, routes, i);
      }
      LinksOfNone(id, routes);
    }

    /** db_derivation_stands: some route still has all its premises live. */
    method DerivationStands(rec: Rec) returns (stands: bool)
      ensures stands <==> Stands(View(), rec)
    {
      if rec.routes == [] {
        return true;
      }
      for i := 0 to |rec.routes|
        invariant forall r :: 0 <= r < i ==> !RouteLive(View(), rec.routes[r])
      {
        var ps := rec.routes[i].premises;
        var allLive := true;
        var j := 0;
        while j < |ps| && allLive
          invariant 0 <= j <= |ps|
          invariant allLive ==> forall k :: 0 <= k < j ==> Live(View(), ps[k])
          invariant !allLive ==> !RouteLive(View(), rec.routes[i])
        {
          allLive := ps[j] in recs && recs[ps[j]].live;
          j := j + 1;
        }
        if allLive {
          return true;
        }
      }
      return false;
    }

    /** One turn of the retraction loop: read the record, and tombstone it if no
        route stands. */
    method Judge(id: nat) returns (withdrawn: bool)
      requires Valid() && drained != [] && drained[0] == id
      modifies this`recs, this`edges, this`queue, this`drained
      ensures Valid() && drained == old(drained)[1..]
      ensures withdrawn <==> old(Live(View(), id) && !Stands(View(), recs[id]))
      ensures recs == if withdrawn then old(recs)[id := old(recs)[id].(live := false)] else old(recs)
      ensures !withdrawn ==> queue == old(queue)
    {
      hide Inv, Enqueued;
      ghost var before := View();
      withdrawn := false;
      if id in recs && recs[id].live {
        var stands := DerivationStands(recs[id]);
        if !stands {
          withdrawn := Delete(id);
          KillKeeps(reg, before, id, View(), lost);
        }
      }
      ghost var judged := View();
      drained := drained[1..];
      JudgedKeeps(reg, judged, View(), lost);
    }

    /** db_retract_step: drain up to `cap` ids, withdraw those that no longer
        stand. With work queued and a positive cap it always makes progress. */
    method RetractStep(cap: nat) returns (retracted: nat)
      requires Valid() && drained == []
      modifies this`recs, this`edges, this`queue, this`drained
      ensures Valid() && drained == []
      ensures recs.Keys == old(recs).Keys
      ensures forall id :: id in recs ==> recs[id] == old(recs)[id].(live := recs[id].live)
      ensures LiveIds(recs) <= old(LiveIds(recs))
      ensures retracted == |old(LiveIds(recs))| - |LiveIds(recs)|
      ensures cap > 0 && old(queue) != [] ==> LiveIds(recs) < old(LiveIds(recs)) || |queue| < |old(queue)|
    {
      hide Inv, Stands, LiveIds;
      var n := if |queue| < cap then |queue| else cap;
      retracted := 0;
      if n == 0 {
        return;
      }
      var batch := queue[..n];
      queue := queue[n..];
      drained := batch;
      DrainKeeps(reg, old(View()), n, View(), lost);
      for i := 0 to n
        invariant Valid() && drained == batch[i..]
        invariant recs.Keys == old(recs).Keys
        invariant forall id :: id in recs ==> recs[id] == old(recs)[id].(live := recs[id].live)
        invariant LiveIds(recs) <= old(LiveIds(recs))
        invariant retracted == |old(LiveIds(recs))| - |LiveIds(recs)|
        invariant if retracted == 0 then queue == old(queue)[n..] else LiveIds(recs) < old(LiveIds(recs))
      {
        ghost var before := recs;
        var withdrawn := Judge(batch[i]);
        if withdrawn {
          OneFewer(before, batch[i], recs);
          retracted := retracted + 1;
        }
      }
    }

    /** Repeated steps with a positive cap empty the queue. Everything then live stands
        exactly when the conclusions that lost a link do, and is then entailed by the
        asserted facts of its namespace. */
    method DrainAll(cap: nat)
      requires Valid() && drained == [] && owed == multiset{} && cap > 0
      modifies this`recs, this`edges, this`queue, this`drained
      ensures Valid() && queue == []
      ensures AllStand(View()) <==> Recovered(View(), lost)
      ensures Recovered(View(), lost) ==> forall d :: Live(View(), d) && recs[d].fact.Some? ==>
                InClosure(reg, AssertedIn(View(), recs[d].ns), recs[d].fact.value)
    {
      while queue != []
        invariant Valid() && drained == []
        decreases LiveIds(recs), |queue|
      {
        var _ := RetractStep(cap);
      }
      RestingExactly(reg, View(), lost);
      forall d | AllStand(View()) && Live(View(), d) && recs[d].fact.Some?
        ensures InClosure(reg, AssertedIn(View(), recs[d].ns), recs[d].fact.value)
      {
        var p := Grounded(reg, View(), d);
        ProofMeansClosure(reg, View(), recs[d].ns, p, recs[d].fact.value);
      }
    }
  }
}
