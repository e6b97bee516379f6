/** Consolidation: a cluster of near-duplicates folds into its newest member. What the
    live records assert is unchanged, and a conclusion drawn from an absorbed record
    still stands, exactly as far as the supersession notes reach. */
module Merging {
  import opened Facts

  const MAX_HOPS := 8
  const MAX_NOTES := 65536
  const DERIVED_FROM := "derived_from"
  const SUPERSEDES := "supersedes"

  /** `routes` holds, per justification, the premises it needs. */
  datatype Record = Record(
    id: nat, updated: nat, fact: Option<Triple>, tags: seq<string>, importance: real, confidence: real,
    rels: seq<Rel>, routes: seq<seq<nat>>)

  /** `heir` absorbed `gone`. */
  datatype Note = Note(gone: nat, heir: nat)

  type Live = map<nat, Record>

  // ----- following supersession ---------------------------------------------------------

  /** The newest note about `id`; ids start at 1, so 0 is none. */
  function Lookup(notes: seq<Note>, id: nat): nat
  {
    if notes == [] then 0
    else if notes[|notes| - 1].gone == id then notes[|notes| - 1].heir
    else Lookup(notes[..|notes| - 1], id)
  }

  /** Where at most `hops` notes lead from `id`. */
  function Follow(notes: seq<Note>, id: nat, hops: nat): nat
    decreases hops
  {
    if hops == 0 then id
    else
      var next := Lookup(notes, id);
      if next == 0 || next == id then id else Follow(notes, next, hops - 1)
  }

  predicate Stays(notes: seq<Note>, id: nat) { Lookup(notes, id) == 0 || Lookup(notes, id) == id }

  function Resolve(notes: seq<Note>, id: nat): nat
  {
    if Stays(notes, id) then 0 else Follow(notes, id, MAX_HOPS)
  }

  method SupersedeLookup(notes: seq<Note>, id: nat) returns (to: nat)
    ensures to == Lookup(notes, id)
  {
    var i := |notes|;
    assert notes[..i] == notes;
    while i > 0
      invariant 0 <= i <= |notes| && Lookup(notes, id) == Lookup(notes[..i], id)
    {
      i := i - 1;
      if notes[i].gone == id {
        return notes[i].heir;
      }
      assert notes[..i + 1][..i] == notes[..i];
    }
    return 0;
  }

  method SupersedeResolve(notes: seq<Note>, id: nat) returns (heir: nat)
    ensures heir == Resolve(notes, id)
  {
    var cur := id;
    for hop := 0 to MAX_HOPS
      invariant Follow(notes, id, MAX_HOPS) == Follow(notes, cur, MAX_HOPS - hop)
      invariant hop == 0 ==> cur == id
      invariant hop > 0 ==> !Stays(notes, id)
    {
      var next := SupersedeLookup(notes, cur);
      if next == 0 || next == cur {
        return if hop > 0 then cur else 0;
      }
      cur := next;
    }
    return cur;
  }

  /** A premise counts as live when it is, or when the record that absorbed it is. */
  predicate IdLive(live: Live, notes: seq<Note>, id: nat)
  {
    id in live || (Resolve(notes, id) != 0 && Resolve(notes, id) in live)
  }

  predicate RouteLive(live: Live, notes: seq<Note>, premises: seq<nat>)
  {
    forall j :: 0 <= j < |premises| ==> IdLive(live, notes, premises[j])
  }

  predicate Stands(live: Live, notes: seq<Note>, r: Record)
  {
    r.routes == [] || exists i :: 0 <= i < |r.routes| && RouteLive(live, notes, r.routes[i])
  }

  /** db_id_is_live: the record itself, else whatever absorbed it. */
  method IdIsLive(live: Live, notes: seq<Note>, id: nat) returns (ok: bool)
    ensures ok <==> IdLive(live, notes, id)
  {
    if id in live {
      return true;
    }
    var heir := SupersedeResolve(notes, id);
    return heir != 0 && heir in live;
  }

  /** db_derivation_stands: an asserted record always; a derived one by any one route. */
  method DerivationStands(live: Live, notes: seq<Note>, r: Record) returns (stands: bool)
    ensures stands <==> Stands(live, notes, r)
  {
    if r.routes == [] {
      return true;
    }
    for i := 0 to |r.routes|
      invariant forall k :: 0 <= k < i ==> !RouteLive(live, notes, r.routes[k])
    {
      var allLive, j := true, 0;
      while j < |r.routes[i]| && allLive
        invariant 0 <= j <= |r.routes[i]|
        invariant allLive ==> forall k :: 0 <= k < j ==> IdLive(live, notes, r.routes[i][k])
        invariant !allLive ==> !RouteLive(live, notes, r.routes[i])
      {
        allLive := IdIsLive(live, notes, r.routes[i][j]);
        j := j + 1;
      }
      if allLive {
        return true;
      }
    }
    return false;
  }

  // ----- what a merge does ------------------------------------------------------------------

  /** The notes a merge leaves: those past the cap are dropped. */
  function Noted(notes: seq<Note>, losers: seq<nat>, heir: nat): seq<Note>
  {
    if losers == [] then notes
    else
      var before := Noted(notes, losers[..|losers| - 1], heir);
      if |before| < MAX_NOTES then before + [Note(losers[|losers| - 1], heir)] else before
  }

  /** No note is about a live record, and no record has id 0. */
  ghost predicate NotesOk(live: Live, notes: seq<Note>)
  {
    && 0 !in live
    && (forall i :: 0 <= i < |notes| ==> notes[i].gone !in live && notes[i].heir != 0)
  }

  ghost predicate Cluster(live: Live, survivor: nat, losers: seq<nat>)
  {
    && survivor in live && survivor !in losers
    && (forall i :: 0 <= i < |losers| ==> losers[i] in live)
    && (forall i, j :: 0 <= i < j < |losers| ==> losers[i] != losers[j])
  }

  /** Claims and justifications are as they were, but for a fact the survivor adopted
      from a loser; no loser asserted anything else. */
  ghost predicate Folded(live: Live, live': Live, survivor: nat, losers: seq<nat>)
  {
    && Cluster(live, survivor, losers)
    && live'.Keys == live.Keys - (set l | l in losers)
    && (forall id :: id in live' ==> live'[id].routes == live[id].routes)
    && (forall id :: id in live' && id != survivor ==> live'[id].fact == live[id].fact)
    && (live'[survivor].fact == live[survivor].fact
        || (live[survivor].fact.None? && exists l :: l in losers && live[l].fact == live'[survivor].fact))
    && (forall l :: l in losers ==> live[l].fact.None? || live[l].fact == live'[survivor].fact)
  }

  /** Some live record, asserted or derived, states the triple. */
  ghost predicate Stated(live: Live, t: Triple) { exists id :: id in live && live[id].fact == Some(t) }

  /** A merge neither loses nor invents a stated triple. */
  lemma StatedKept(live: Live, live': Live, survivor: nat, losers: seq<nat>, t: Triple)
    requires Folded(live, live', survivor, losers)
    ensures Stated(live', t) <==> Stated(live, t)
  {
  }

  /** Some live record asserts the triple of its own accord: nothing it was drawn from
      can take it back. */
  ghost predicate InBase(live: Live, t: Triple)
  {
    exists id :: id in live && live[id].routes == [] && live[id].fact == Some(t)
  }

  ghost predicate SameBase(a: Live, b: Live) { forall t :: InBase(b, t) <==> InBase(a, t) }

  /** What a merge leaves alone: an asserted survivor states nothing that was only
      concluded, and a derived one absorbs no assertion that nobody else makes. */
  ghost predicate BaseSafe(live: Live, survivor: nat, losers: seq<nat>, fact: Option<Triple>)
    requires survivor in live && forall l :: l in losers ==> l in live
  {
    if live[survivor].routes == [] then fact.Some? ==> InBase(live, fact.value)
    else forall l :: l in losers && live[l].routes == [] && live[l].fact.Some? ==>
           exists id :: id in live && id !in losers && live[id].routes == [] && live[id].fact == live[l].fact
  }

  /** The asserted triples are unchanged by a merge exactly when it is safe for them. */
  lemma BaseExactly(live: Live, live': Live, survivor: nat, losers: seq<nat>)
    requires Folded(live, live', survivor, losers)
    ensures survivor in live' && forall l :: l in losers ==> l in live
    ensures SameBase(live, live') <==> BaseSafe(live, survivor, losers, live'[survivor].fact)
  {
    var fact := live'[survivor].fact;
    if BaseSafe(live, survivor, losers, fact) {
      forall t ensures InBase(live', t) <==> InBase(live, t) {
        SafeKeeps(live, live', survivor, losers, t);
      }
    } else if live[survivor].routes == [] {
      assert live'[survivor].fact == Some(fact.value);
      assert InBase(live', fact.value) && !InBase(live, fact.value);
    } else {
      var l :| l in losers && live[l].routes == [] && live[l].fact.Some?
               && !exists id :: id in live && id !in losers && live[id].routes == [] && live[id].fact == live[l].fact;
      var t := live[l].fact.value;
      assert InBase(live, t) && !InBase(live', t);
    }
  }

  lemma SafeKeeps(live: Live, live': Live, survivor: nat, losers: seq<nat>, t: Triple)
    requires Folded(live, live', survivor, losers) && (forall l :: l in losers ==> l in live)
    requires BaseSafe(live, survivor, losers, live'[survivor].fact)
    ensures InBase(live', t) <==> InBase(live, t)
  {
    if id :| id in live && live[id].routes == [] && live[id].fact == Some(t) {
      if id in losers {
        if live[survivor].routes == [] {
          assert live'[survivor].fact == Some(t);
        } else {
          var other :| other in live && other !in losers && live[other].routes == []
              && live[other].fact == live[id].fact;
          assert other in live';
        }
      } else {
        assert id in live';
      }
    }
    if id :| id in live' && live'[id].routes == [] && live'[id].fact == Some(t) {
      assert id in live;
    }
  }

  // ----- what still stands -------------------------------------------------------------------

  /** The record a premise is judged by: itself, or the end of its notes. */
  function EndOf(live: Live, notes: seq<Note>, id: nat): nat { if id in live then id else Follow(notes, id, MAX_HOPS) }

  /** Whether a merge carries a premise over: the record it is judged by was not
      absorbed, or the absorption was noted and one more note is within reach. */
  ghost predicate Carried(live: Live, notes: seq<Note>, losers: seq<nat>, id: nat)
  {
    var end := EndOf(live, notes, id);
    end in losers ==>
      && (exists i :: 0 <= i < |losers| && losers[i] == end && |notes| + i < MAX_NOTES)
      && (id in live || Follow(notes, id, MAX_HOPS - 1) == end)
  }

  lemma {:induction false} NotedLength(notes: seq<Note>, losers: seq<nat>, heir: nat)
    requires |notes| <= MAX_NOTES
    ensures |Noted(notes, losers, heir)| == if |notes| + |losers| <= MAX_NOTES then |notes| + |losers| else MAX_NOTES
  {
    if losers != [] {
      NotedLength(notes, losers[..|losers| - 1], heir);
    }
  }

  lemma {:induction false} NotedIff(live: Live, notes: seq<Note>, losers: seq<nat>, heir: nat, i: nat)
    requires NotesOk(live, notes) && Cluster(live, heir, losers) && |notes| <= MAX_NOTES && i < |losers|
    ensures Lookup(Noted(notes, losers, heir), losers[i]) != 0 <==> |notes| + i < MAX_NOTES
    decreases |losers|
  {
    var front, last := losers[..|losers| - 1], losers[|losers| - 1];
    var before := Noted(notes, front, heir);
    NotedLength(notes, front, heir);
    assert (before + [Note(last, heir)])[..|before|] == before;
    if i < |front| {
      NotedIff(live, notes, front, heir, i);
    } else {
      NotedLookup(live, notes, front, heir, last);
      LiveUnnoted(live, notes, last);
    }
  }

  lemma {:induction false} NotedLookup(live: Live, notes: seq<Note>, losers: seq<nat>, heir: nat, id: nat)
    requires NotesOk(live, notes) && Cluster(live, heir, losers)
    ensures id !in losers ==> Lookup(Noted(notes, losers, heir), id) == Lookup(notes, id)
    ensures id in losers ==> Lookup(Noted(notes, losers, heir), id) in {0, heir}
    ensures id in live && id !in losers ==> Lookup(Noted(notes, losers, heir), id) == 0
    decreases |losers|
  {
    if id in live {
      LiveUnnoted(live, notes, id);
    }
    if losers != [] {
      var front, last := losers[..|losers| - 1], losers[|losers| - 1];
      NotedLookup(live, notes, front, heir, id);
      var before := Noted(notes, front, heir);
      assert (before + [Note(last, heir)])[..|before|] == before;
      if id in losers && id != last {
        assert id in front;
      }
    }
  }

  lemma {:induction false} LiveUnnoted(live: Live, notes: seq<Note>, id: nat)
    requires NotesOk(live, notes) && id in live
    ensures Lookup(notes, id) == 0
  {
    if notes != [] {
      LiveUnnoted(live, notes[..|notes| - 1], id);
    }
  }

  /** Following notes after the merge: the same way, and one hop further if the old end
      was absorbed and hops remain. */
  lemma {:induction false} FollowAfter(live: Live, notes: seq<Note>, losers: seq<nat>, heir: nat, id: nat, hops: nat)
    requires NotesOk(live, notes) && Cluster(live, heir, losers)
    ensures var notes' := Noted(notes, losers, heir);
            var end := Follow(notes, id, hops);
            && (end !in losers ==> Follow(notes', id, hops) == end)
            && (end in losers ==>
                  Follow(notes', id, hops)
                  == if Lookup(notes', end) != 0 && hops > 0 && Follow(notes, id, hops - 1) == end then heir else end)
    decreases hops
  {
    var notes' := Noted(notes, losers, heir);
    NotedLookup(live, notes, losers, heir, id);
    if hops > 0 {
      if id in losers {
        LiveUnnoted(live, notes, id);
        NotedLookup(live, notes, losers, heir, heir);
        assert Follow(notes', heir, hops - 1) == heir;
        assert Follow(notes, id, hops - 1) == id;
      } else if !Stays(notes, id) {
        FollowAfter(live, notes, losers, heir, Lookup(notes, id), hops - 1);
      }
    }
  }

  /** A premise reads as live after the merge exactly when it did before and the merge
      carried it over. */
  lemma LiveExactly(live: Live, notes: seq<Note>, live': Live, survivor: nat, losers: seq<nat>, id: nat)
    requires NotesOk(live, notes) && |notes| <= MAX_NOTES && Folded(live, live', survivor, losers)
    ensures IdLive(live', Noted(notes, losers, survivor), id) <==>
              IdLive(live, notes, id) && Carried(live, notes, losers, id)
  {
    hide Folded, Noted;
    FoldedKeys(live, live', survivor, losers);
    NotedLookup(live, notes, losers, survivor, id);
    NotedLookup(live, notes, losers, survivor, survivor);
    FollowAfter(live, notes, losers, survivor, id, MAX_HOPS);
    if id in live {
      LiveUnnoted(live, notes, id);
      assert Follow(notes, id, MAX_HOPS) == id == Follow(notes, id, MAX_HOPS - 1);
    }
    var end := EndOf(live, notes, id);
    if end in losers {
      var i :| 0 <= i < |losers| && losers[i] == end;
      NotedIff(live, notes, losers, survivor, i);
    }
  }

  lemma FoldedKeys(live: Live, live': Live, survivor: nat, losers: seq<nat>)
    requires Folded(live, live', survivor, losers)
    ensures Cluster(live, survivor, losers) && live'.Keys == live.Keys - (set l | l in losers)
  {
  }

  ghost predicate RouteCarried(live: Live, notes: seq<Note>, losers: seq<nat>, premises: seq<nat>)
  {
    forall j :: 0 <= j < |premises| ==> IdLive(live, notes, premises[j]) && Carried(live, notes, losers, premises[j])
  }

  /** A surviving record's conclusion stands after the merge exactly when some route of
      its stood before on premises that were all carried over. */
  lemma StandsExactly(live: Live, notes: seq<Note>, live': Live, survivor: nat, losers: seq<nat>, id: nat)
    requires NotesOk(live, notes) && |notes| <= MAX_NOTES && Folded(live, live', survivor, losers) && id in live'
    ensures id in live
    ensures Stands(live', Noted(notes, losers, survivor), live'[id]) <==>
              live[id].routes == []
              || exists i :: 0 <= i < |live[id].routes| && RouteCarried(live, notes, losers, live[id].routes[i])
  {
    hide IdLive, Carried, Noted;
    var routes := live[id].routes;
    var notes' := Noted(notes, losers, survivor);
    assert live'[id].routes == routes;
    forall i | 0 <= i < |routes| ensures RouteLive(live', notes', routes[i]) <==>
        RouteCarried(live, notes, losers, routes[i]) {
      RouteExactly(live, notes, live', survivor, losers, routes[i]);
    }
  }

  lemma RouteExactly(live: Live, notes: seq<Note>, live': Live, survivor: nat, losers: seq<nat>, premises: seq<nat>)
    requires NotesOk(live, notes) && |notes| <= MAX_NOTES && Folded(live, live', survivor, losers)
    ensures RouteLive(live', Noted(notes, losers, survivor), premises) <==> RouteCarried(live, notes, losers, premises)
  {
    hide IdLive, Carried, Noted, Folded;
    forall j | 0 <= j < |premises|
      ensures IdLive(live', Noted(notes, losers, survivor), premises[j])
              <==> IdLive(live, notes, premises[j]) && Carried(live, notes, losers, premises[j])
    {
      LiveExactly(live, notes, live', survivor, losers, premises[j]);
    }
  }

  /** With room for the notes, and every premise within seven hops of its record, a
      conclusion that stood still stands. */
  lemma StillStands(live: Live, notes: seq<Note>, live': Live, survivor: nat, losers: seq<nat>, id: nat)
    requires NotesOk(live, notes) && Folded(live, live', survivor, losers) && id in live' && id in live
    requires |notes| + |losers| <= MAX_NOTES && Stands(live, notes, live[id])
    requires forall i, j :: 0 <= i < |live[id].routes| && 0 <= j < |live[id].routes[i]| ==>
               var p := live[id].routes[i][j]; p in live || Follow(notes, p, MAX_HOPS - 1) == Follow(notes, p, MAX_HOPS)
    ensures Stands(live', Noted(notes, losers, survivor), live'[id])
  {
    hide IdLive, Noted, Folded, Follow;
    StandsExactly(live, notes, live', survivor, losers, id);
    if live[id].routes != [] {
      var i :| 0 <= i < |live[id].routes| && RouteLive(live, notes, live[id].routes[i]);
      var ps := live[id].routes[i];
      forall j | 0 <= j < |ps| ensures IdLive(live, notes, ps[j]) && Carried(live, notes, losers, ps[j]) {
        assert live[id].routes[i][j] == ps[j];
      }
      assert RouteCarried(live, notes, losers, ps);
    }
  }

  function Plain(id: nat, routes: seq<seq<nat>>): Record { Record(id, 0, None, [], 0.0, 0.0, [], routes) }

  // ----- merges that move a triple between asserted and derived -----------------------------

  const Claim := Triple(7, "knows", IdObj(8))
  const Reason := Record(3, 0, Some(Triple(8, "knows", IdObj(7))), [], 0.0, 0.0, [], [])
  const ToldSo := Record(1, 1, Some(Claim), [], 0.0, 0.0, [], [])
  const Drawn := Record(2, 2, Some(Claim), [], 0.0, 0.0, [], [[3]])
  const Prose := Record(4, 4, None, [], 0.0, 0.0, [], [])

  /** A conclusion newer than a client's own assertion of the same triple absorbs it.
      The premise then goes, and the claim has nothing left to stand on, though without
      the merge the client would still be asserting it. */
  lemma DerivedSurvivorForgets()
    ensures var live := map[1 := ToldSo, 2 := Drawn, 3 := Reason];
            && Folded(live, live - {1}, 2, [1]) && !SameBase(live, live - {1})
            && InBase(live - {3}, Claim)
            && !Stands(live - {1} - {3}, Noted([], [1], 2), Drawn)
  {
    var live := map[1 := ToldSo, 2 := Drawn, 3 := Reason];
    assert (live - {3})[1] == ToldSo;
    assert InBase(live, Claim) by { assert live[1] == ToldSo; }
    assert !InBase(live - {1}, Claim);
    OneNote(1, 2, 3);
    assert !RouteLive(live - {1} - {3}, Noted([], [1], 2), Drawn.routes[0]) by { assert Drawn.routes[0][0] == 3; }
  }

  /** A newer record of prose adopts the triple of a conclusion it absorbs. The premise
      then goes; the conclusion would have gone with it, but is now an assertion. */
  lemma AdoptedConclusionOutlives()
    ensures var live := map[2 := Drawn, 3 := Reason, 4 := Prose];
            var live' := map[3 := Reason, 4 := Prose.(fact := Some(Claim))];
            && Folded(live, live', 4, [2]) && !SameBase(live, live')
            && !Stands(live - {3}, [], Drawn)
            && InBase(live' - {3}, Claim)
  {
    var live := map[2 := Drawn, 3 := Reason, 4 := Prose];
    var live' := map[3 := Reason, 4 := Prose.(fact := Some(Claim))];
    assert [2][0] == 2 && 2 in [2] && live[2].fact == live'[4].fact;
    assert (live' - {3})[4].fact == Some(Claim) && live'[4].fact == Some(Claim);
    assert InBase(live', Claim) && !InBase(live, Claim);
    assert !RouteLive(live - {3}, [], Drawn.routes[0]) by { assert Drawn.routes[0][0] == 3; }
  }

  lemma OneNote(gone: nat, heir: nat, id: nat)
    requires id != gone
    ensures Noted([], [gone], heir) == [Note(gone, heir)] && Lookup([Note(gone, heir)], id) == 0
  {
    assert [gone][..0] == [] && [Note(gone, heir)][..0] == [];
  }

  /** 1 absorbed by 2, 2 by 3, and so on. */
  function Chain(n: nat): seq<Note> { if n == 0 then [] else Chain(n - 1) + [Note(n, n + 1)] }

  lemma {:induction false} ChainOk(n: nat, live: Live)
    requires forall id :: id in live ==> id > n
    ensures |Chain(n)| == n && NotesOk(live, Chain(n))
  {
    if n > 0 {
      ChainOk(n - 1, live);
    }
  }

  lemma {:induction false} ChainLookup(n: nat, k: nat)
    requires k > 0
    ensures Lookup(Chain(n), k) == if k <= n then k + 1 else 0
  {
    if n > 0 {
      assert Chain(n)[..|Chain(n)| - 1] == Chain(n - 1);
      ChainLookup(n - 1, k);
    }
  }

  lemma {:induction false} ChainFollows(n: nat, k: nat, hops: nat)
    requires k > 0 && k + hops <= n + 1
    ensures Follow(Chain(n), k, hops) == k + hops
    decreases hops
  {
    ChainLookup(n, k);
    if hops > 0 {
      ChainFollows(n, k + 1, hops - 1);
    }
  }

  /** A premise already eight merges old is lost by the ninth. */
  lemma NinthMergeLoses()
    ensures var notes := Chain(8);
            var live := map[9 := Plain(9, []), 10 := Plain(10, []), 20 := Plain(20, [[1]])];
            && NotesOk(live, notes) && Folded(live, live - {9}, 10, [9])
            && Stands(live, notes, live[20])
            && !Stands(live - {9}, Noted(notes, [9], 10), live[20])
  {
    hide Chain, Lookup, Follow, Noted, NotesOk;
    var notes := Chain(8);
    var live := map[9 := Plain(9, []), 10 := Plain(10, []), 20 := Plain(20, [[1]])];
    ChainOk(8, live);
    ChainFollows(8, 1, 8);
    ChainFollows(8, 1, 7);
    ChainLookup(8, 1);
    assert RouteLive(live, notes, live[20].routes[0]);
    assert !Carried(live, notes, [9], 1);
    var premises := [1];
    assert premises[0] == 1 && !RouteCarried(live, notes, [9], premises);
    assert live[20].routes == [premises];
    StandsExactly(live, notes, live - {9}, 10, [9], 20);
  }
}
