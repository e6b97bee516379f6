/** What the pass promises as a whole: it does not depend on the order it visits
    facts in, and repeating it reaches the closure and stops. */
module InferenceLaws {
  import opened Facts
  import opened Routes
  import opened Inference

  /** Route depth never wraps: it is one past the deepest premise, within the cap. */
  lemma DepthInRange(cfg: Config, facts: set<Known>, c: Candidate)
    requires Follows(cfg, facts, c) && cfg.maxDepth < U16
    ensures 1 <= c.route.depth <= cfg.maxDepth
    ensures DistinctIds(facts) ==>
              forall f :: f in facts && f.id in c.route.premises ==> f.depth < c.route.depth
  {
  }

  ghost predicate DistinctIds(facts: set<Known>)
  {
    forall f, g :: f in facts && g in facts && f.id == g.id ==> f == g
  }

  /** With distinct ids, a rule and its premise ids determine the whole route. */
  lemma SameIdentitySameRoute(cfg: Config, facts: set<Known>, t: Triple, r: ScoredRoute, q: ScoredRoute)
    requires DistinctIds(facts) && r in RoutesTo(cfg, facts, t) && q in RoutesTo(cfg, facts, t) && Cmp(r, q) == 0
    ensures r == q
  {
    CmpOrder(r, q, r);
    var rule, fs :| AllIn(fs, facts) && DrawnFrom(cfg, rule, fs, Candidate(t, r));
    var rule', gs :| AllIn(gs, facts) && DrawnFrom(cfg, rule', gs, Candidate(t, q));
    assert IdsOf(fs) == IdsOf(gs);
    forall i | 0 <= i < |fs| ensures fs[i] == gs[i] {
      assert IdsOf(fs)[i] == IdsOf(gs)[i];
    }
    assert fs == gs;
  }

  lemma ExactDetermined(cfg: Config, facts: set<Known>, a: seq<Conclusion>, b: seq<Conclusion>, i: nat)
    requires DistinctIds(facts) && Exact(cfg, facts, a) && Exact(cfg, facts, b) && i < |a|
    ensures a[i] in b
  {
    var t := a[i].triple;
    assert a[i].routes[0] in a[i].routes;
    assert Follows(cfg, facts, Candidate(t, a[i].routes[0]));
    var j :| 0 <= j < |b| && b[j].triple == t;
    forall r, q | r in RoutesTo(cfg, facts, t) && q in RoutesTo(cfg, facts, t) && Cmp(r, q) == 0 ensures r == q {
      SameIdentitySameRoute(cfg, facts, t, r, q);
    }
    KeptUnique(a[i].routes, b[j].routes, RoutesTo(cfg, facts, t));
    assert a[i] == b[j];
  }

  lemma SetOfPermuted(a: seq<Known>, b: seq<Known>)
    requires multiset(a) == multiset(b)
    ensures SetOf(a) == SetOf(b)
  {
    assert forall f :: f in a <==> f in multiset(a);
    assert forall f :: f in b <==> f in multiset(b);
  }

  /** Two untruncated passes over the same facts, in any order, from any starting
      point and with any hash, draw the same conclusions with the same routes and
      the same confidence. */
  lemma OrderIrrelevant(cfg: Config, facts: seq<Known>, permuted: seq<Known>, a: seq<Conclusion>, b: seq<Conclusion>)
    requires multiset(facts) == multiset(permuted) && DistinctIds(SetOf(facts))
    requires Exact(cfg, SetOf(facts), a) && Exact(cfg, SetOf(permuted), b)
    ensures forall c :: c in a <==> c in b
  {
    hide Exact;
    SetOfPermuted(facts, permuted);
    forall c | c in a ensures c in b {
      var i :| 0 <= i < |a| && a[i] == c;
      ExactDetermined(cfg, SetOf(facts), a, b, i);
    }
    forall c | c in b ensures c in a {
      var i :| 0 <= i < |b| && b[i] == c;
      ExactDetermined(cfg, SetOf(facts), b, a, i);
    }
  }

  // ----- repeated passes ---------------------------------------------------------------

  /** derivation_depth: the shallowest justification a record carries. */
  function LeastDepth<X>(rs: seq<Route<X>>): (d: nat)
    ensures rs == [] ==> d == 0
    ensures forall i :: 0 <= i < |rs| ==> d <= rs[i].depth
    ensures rs != [] ==> exists i :: 0 <= i < |rs| && rs[i].depth == d
  {
    if rs == [] then 0
    else
      var front := LeastDepth(rs[..|rs| - 1]);
      if |rs| == 1 || rs[|rs| - 1].depth < front then rs[|rs| - 1].depth else front
  }

  ghost function TriplesIn(facts: set<Known>): set<Triple> { set f | f in facts :: f.triple }

  /** The pass's conclusions became facts: every new fact is one of them, at the
      depth of its shallowest route, and every one of them is now a fact. */
  ghost predicate Materialised(facts: set<Known>, out: seq<Conclusion>, facts': set<Known>)
  {
    && facts <= facts'
    && (forall f :: f in facts' && f !in facts ==>
          exists i :: 0 <= i < |out| && f.triple == out[i].triple && f.conf == out[i].conf
                      && f.depth == LeastDepth(out[i].routes))
    && (forall i :: 0 <= i < |out| ==> out[i].triple in TriplesIn(facts'))
  }

  /** A run of untruncated passes, each over what the previous one left. */
  ghost predicate PassRun(cfg: Config, stages: seq<set<Known>>, outs: seq<seq<Conclusion>>)
  {
    && |stages| == |outs| + 1
    && forall n :: 0 <= n < |outs| ==>
         Exact(cfg, stages[n], outs[n]) && Materialised(stages[n], outs[n], stages[n + 1])
  }

  /** The finite universe the rules cannot leave. */
  ghost function Entities(facts: set<Known>): set<nat>
  {
    (set f | f in facts :: f.triple.subject) + (set f | f in facts && f.triple.obj.IdObj? :: f.triple.obj.id)
  }

  ghost function Predicates(reg: Registry, facts: set<Known>): set<string>
  {
    (set f | f in facts :: f.triple.pred)
    + (set p | p in reg && reg[p].inverseOf.Some? :: reg[p].inverseOf.value)
  }

  ghost function Universe(entities: set<nat>, preds: set<string>): set<Triple>
  {
    set s, p, o | s in entities && p in preds && o in entities :: Triple(s, p, IdObj(o))
  }

  ghost predicate Within(facts: set<Known>, entities: set<nat>, preds: set<string>)
  {
    Entities(facts) <= entities && forall f :: f in facts ==> f.triple.pred in preds
  }

  ghost predicate InversesIn(reg: Registry, preds: set<string>)
  {
    forall p :: p in reg && reg[p].inverseOf.Some? ==> reg[p].inverseOf.value in preds
  }

  lemma ConclusionWithin(cfg: Config, facts: set<Known>, c: Candidate, entities: set<nat>, preds: set<string>)
    requires Within(facts, entities, preds) && Follows(cfg, facts, c)
    requires InversesIn(cfg.reg, preds)
    ensures c.triple in Universe(entities, preds)
  {
    var rule, fs :| AllIn(fs, facts) && DrawnFrom(cfg, rule, fs, c);
    var f: Known := fs[0];
    assert TriplesOf(fs)[0] == f.triple && f in facts;
    assert f.triple.subject in Entities(facts) && f.triple.obj.id in Entities(facts);
    if rule.Transitive? {
      var g: Known := fs[1];
      assert TriplesOf(fs)[1] == g.triple && g in facts;
      assert g.triple.obj.id in Entities(facts);
    }
  }

  lemma StageWithin(cfg: Config, facts: set<Known>, out: seq<Conclusion>, facts': set<Known>, entities: set<nat>,
                    preds: set<string>)
    requires Exact(cfg, facts, out) && Materialised(facts, out, facts') && Within(facts, entities, preds)
    requires InversesIn(cfg.reg, preds)
    ensures Within(facts', entities, preds)
    ensures forall i :: 0 <= i < |out| ==> out[i].triple in Universe(entities, preds)
  {
    forall i | 0 <= i < |out| ensures out[i].triple in Universe(entities, preds) {
      assert out[i].routes[0] in out[i].routes;
      ConclusionWithin(cfg, facts, Candidate(out[i].triple, out[i].routes[0]), entities, preds);
    }
    forall f: Known | f in facts' && f !in facts ensures f.triple in Universe(entities, preds) {
      var i :| 0 <= i < |out| && f.triple == out[i].triple;
    }
  }

  ghost function Missing(facts: set<Known>, entities: set<nat>, preds: set<string>): set<Triple>
  {
    Universe(entities, preds) - TriplesIn(facts)
  }

  /** A pass that draws anything leaves strictly less of the universe undrawn. */
  lemma StageShrinks(cfg: Config, facts: set<Known>, out: seq<Conclusion>, facts': set<Known>, entities: set<nat>,
                     preds: set<string>)
    requires Exact(cfg, facts, out) && Materialised(facts, out, facts') && Within(facts, entities, preds)
    requires InversesIn(cfg.reg, preds)
    requires out != []
    ensures Missing(facts', entities, preds) < Missing(facts, entities, preds)
  {
    StageWithin(cfg, facts, out, facts', entities, preds);
    var t := out[0].triple;
    assert t in Missing(facts, entities, preds) && t !in Missing(facts', entities, preds);
    assert TriplesIn(facts) <= TriplesIn(facts');
  }

  lemma {:induction false} ProgressBounded(cfg: Config, stages: seq<set<Known>>, outs: seq<seq<Conclusion>>,
                                           entities: set<nat>, preds: set<string>, n: nat)
    requires PassRun(cfg, stages, outs) && n <= |outs| && Within(stages[0], entities, preds)
    requires InversesIn(cfg.reg, preds)
    requires forall k :: 0 <= k < n ==> outs[k] != []
    ensures Within(stages[n], entities, preds)
    ensures |Missing(stages[n], entities, preds)| + n <= |Missing(stages[0], entities, preds)|
  {
    hide Exact, Materialised, Within, Missing, InversesIn;
    if n > 0 {
      ProgressBounded(cfg, stages, outs, entities, preds, n - 1);
      StageWithin(cfg, stages[n - 1], outs[n - 1], stages[n], entities, preds);
      StageShrinks(cfg, stages[n - 1], outs[n - 1], stages[n], entities, preds);
      SmallerSet(Missing(stages[n], entities, preds), Missing(stages[n - 1], entities, preds));
    }
  }

  lemma SmallerSet<T>(a: set<T>, b: set<T>)
    requires a < b
    ensures |a| < |b|
  {
    var x :| x in b && x !in a;
    assert a <= b - {x};
    SubsetCard(a, b - {x});
  }

  lemma {:induction false} SubsetCard<T>(a: set<T>, b: set<T>)
    requires a <= b
    ensures |a| <= |b|
    decreases a
  {
    if a != {} {
      var x :| x in a;
      SubsetCard(a - {x}, b - {x});
    }
  }

  /** No rule has anything left to add below the depth cap. */
  ghost predicate Saturated(cfg: Config, facts: set<Known>)
  {
    forall rule: Rule, fs: seq<Known>, t: Triple ::
      AllIn(fs, facts) && Instance(cfg.reg, rule, TriplesOf(fs), t) && Deepest(fs) < cfg.maxDepth ==>
          t in TriplesIn(facts)
  }

  lemma EmptyPassSaturated(cfg: Config, facts: set<Known>)
    requires Exact(cfg, facts, [])
    ensures Saturated(cfg, facts)
  {
    forall rule: Rule, fs: seq<Known>, t: Triple
      | AllIn(fs, facts) && Instance(cfg.reg, rule, TriplesOf(fs), t) && Deepest(fs) < cfg.maxDepth
      ensures t in TriplesIn(facts)
    {
      var c := Candidate(t, RouteOf(rule, fs, cfg.floor));
      assert DrawnFrom(cfg, rule, fs, c);
      assert Follows(cfg, facts, c);
      assert IsInput(facts, t);
    }
  }

  lemma {:induction false} StagesEntailed(cfg: Config, stages: seq<set<Known>>, outs: seq<seq<Conclusion>>, n: nat)
    requires PassRun(cfg, stages, outs) && n <= |outs|
    ensures stages[0] <= stages[n]
    ensures forall f :: f in stages[n] ==> InClosure(cfg.reg, TriplesIn(stages[0]), f.triple)
  {
    var base := TriplesIn(stages[0]);
    if n == 0 {
      forall f | f in stages[0] ensures InClosure(cfg.reg, base, f.triple) {
        assert Derivable(cfg.reg, base, 0, f.triple);
      }
    } else {
      StagesEntailed(cfg, stages, outs, n - 1);
      forall f | f in stages[n] ensures InClosure(cfg.reg, base, f.triple) {
        if f !in stages[n - 1] {
          var i :| 0 <= i < |outs[n - 1]| && f.triple == outs[n - 1][i].triple;
          ConclusionEntailed(cfg, stages[n - 1], outs[n - 1], i, base);
        }
      }
    }
  }

  lemma ConclusionEntailed(cfg: Config, facts: set<Known>, out: seq<Conclusion>, i: nat, base: set<Triple>)
    requires Sound(cfg, facts, out) && i < |out|
    requires forall f :: f in facts ==> InClosure(cfg.reg, base, f.triple)
    ensures InClosure(cfg.reg, base, out[i].triple)
  {
    assert out[i].routes[0] in out[i].routes;
    var rule, fs :| AllIn(fs, facts) && DrawnFrom(cfg, rule, fs, Candidate(out[i].triple, out[i].routes[0]));
    forall k | 0 <= k < |fs| ensures InClosure(cfg.reg, base, TriplesOf(fs)[k]) {
      assert fs[k] in facts;
    }
    ClosureStep(cfg.reg, base, rule, TriplesOf(fs), out[i].triple);
  }

  /** The main result. Among any |undrawn universe| + 1 successive passes one draws
      nothing; and a stage whose pass draws nothing contains the original facts and
      every rule application on facts shallower than the cap, and only triples in
      the logical closure of the originals. */
  lemma PassesReachClosure(cfg: Config, stages: seq<set<Known>>, outs: seq<seq<Conclusion>>)
    requires PassRun(cfg, stages, outs)
    ensures var entities, preds := Entities(stages[0]), Predicates(cfg.reg, stages[0]);
            |outs| > |Missing(stages[0], entities, preds)| ==>
              exists n :: 0 <= n <= |Missing(stages[0], entities, preds)| && outs[n] == []
    ensures forall n :: 0 <= n < |outs| && outs[n] == [] ==>
              && stages[0] <= stages[n]
              && Saturated(cfg, stages[n])
              && forall f :: f in stages[n] ==> InClosure(cfg.reg, TriplesIn(stages[0]), f.triple)
  {
    var entities, preds := Entities(stages[0]), Predicates(cfg.reg, stages[0]);
    var bound := |Missing(stages[0], entities, preds)|;
    assert InversesIn(cfg.reg, preds);
    assert Within(stages[0], entities, preds);
    if |outs| > bound && forall n :: 0 <= n <= bound ==> outs[n] != [] {
      ProgressBounded(cfg, stages, outs, entities, preds, bound + 1);
      assert false;
    }
    forall n | 0 <= n < |outs| && outs[n] == []
      ensures stages[0] <= stages[n] && Saturated(cfg, stages[n])
      ensures forall f :: f in stages[n] ==> InClosure(cfg.reg, TriplesIn(stages[0]), f.triple)
    {
      EmptyPassSaturated(cfg, stages[n]);
      StagesEntailed(cfg, stages, outs, n);
    }
  }

  // ----- what each stage contains, exactly ----------------------------------------------

  function Reached(cfg: Config, n: nat): nat { if n < cfg.maxDepth then n else cfg.maxDepth }

  /** A fact's depth is within the stage's reach and bounds its own derivation. */
  ghost predicate DepthHonest(cfg: Config, base: set<Triple>, n: nat, f: Known)
  {
    f.depth <= Reached(cfg, n) && Derivable(cfg.reg, base, f.depth, f.triple)
  }

  ghost predicate StageHonest(cfg: Config, base: set<Triple>, n: nat, facts: set<Known>)
  {
    forall f :: f in facts ==> DepthHonest(cfg, base, n, f)
  }

  ghost predicate StageComplete(cfg: Config, base: set<Triple>, n: nat, facts: set<Known>)
  {
    forall t :: Derivable(cfg.reg, base, Reached(cfg, n), t) ==> t in TriplesIn(facts)
  }

  /** A conclusion drawn by a route nests one rule deeper than its deepest premise. */
  lemma RouteHonest(cfg: Config, base: set<Triple>, n: nat, facts: set<Known>, c: Candidate)
    requires cfg.maxDepth < U16 && StageHonest(cfg, base, n, facts) && Follows(cfg, facts, c)
    ensures c.route.depth <= Reached(cfg, n + 1) && Derivable(cfg.reg, base, c.route.depth, c.triple)
  {
    var rule: Rule, fs: seq<Known> :| AllIn(fs, facts) && DrawnFrom(cfg, rule, fs, c);
    var ts, d := TriplesOf(fs), Deepest(fs);
    assert c.route.depth == d + 1;
    forall k | 0 <= k < |ts| ensures Derivable(cfg.reg, base, d, ts[k]) {
      assert fs[k] in facts && DepthHonest(cfg, base, n, fs[k]);
      DerivableMonotone(cfg.reg, base, fs[k].depth, d, ts[k]);
    }
    assert fs[0] in facts && DepthHonest(cfg, base, n, fs[0]);
    if |fs| == 2 {
      assert fs[1] in facts && DepthHonest(cfg, base, n, fs[1]);
    }
    assert DerivableBy(cfg.reg, base, d + 1, rule, ts, c.triple);
  }

  lemma HonestNext(cfg: Config, base: set<Triple>, n: nat, facts: set<Known>, out: seq<Conclusion>, facts': set<Known>)
    requires cfg.maxDepth < U16 && StageHonest(cfg, base, n, facts)
    requires Exact(cfg, facts, out) && Materialised(facts, out, facts')
    ensures StageHonest(cfg, base, n + 1, facts')
  {
    hide Derivable, Follows;
    forall f | f in facts' ensures DepthHonest(cfg, base, n + 1, f) {
      if f in facts {
        assert DepthHonest(cfg, base, n, f);
      } else {
        var i :| 0 <= i < |out| && f.triple == out[i].triple && f.conf == out[i].conf
            && f.depth == LeastDepth(out[i].routes);
        var j :| 0 <= j < |out[i].routes| && out[i].routes[j].depth == f.depth;
        assert out[i].routes[j] in out[i].routes;
        RouteHonest(cfg, base, n, facts, Candidate(out[i].triple, out[i].routes[j]));
      }
    }
  }

  /** Facts of a stage carrying the given triples. */
  lemma {:induction false} Carriers(facts: set<Known>, ts: seq<Triple>) returns (fs: seq<Known>)
    requires forall k :: 0 <= k < |ts| ==> ts[k] in TriplesIn(facts)
    ensures AllIn(fs, facts) && TriplesOf(fs) == ts
  {
    if ts == [] {
      fs := [];
    } else {
      var last := ts[|ts| - 1];
      var front := Carriers(facts, ts[..|ts| - 1]);
      var f :| f in facts && f.triple == last;
      fs := front + [f];
      assert ts == ts[..|ts| - 1] + [last];
      assert TriplesOf(fs) == TriplesOf(front) + [last];
    }
  }

  lemma CompleteNext(cfg: Config, base: set<Triple>, n: nat, facts: set<Known>, out: seq<Conclusion>,
                     facts': set<Known>)
    requires StageHonest(cfg, base, n, facts) && StageComplete(cfg, base, n, facts) && base <= TriplesIn(facts)
    requires Exact(cfg, facts, out) && Materialised(facts, out, facts')
    ensures StageComplete(cfg, base, n + 1, facts')
  {
    hide Exact;
    assert TriplesIn(facts) <= TriplesIn(facts');
    if n < cfg.maxDepth {
      forall t | Derivable(cfg.reg, base, n + 1, t) ensures t in TriplesIn(facts') {
        if t !in base {
          var rule, ps :| DerivableBy(cfg.reg, base, n + 1, rule, ps, t);
          OneMore(cfg, base, n, facts, out, facts', rule, ps, t);
        }
      }
    }
  }

  lemma OneMore(cfg: Config, base: set<Triple>, n: nat, facts: set<Known>, out: seq<Conclusion>, facts': set<Known>,
                rule: Rule, ps: seq<Triple>, t: Triple)
    requires n < cfg.maxDepth && StageHonest(cfg, base, n, facts)
    requires Instance(cfg.reg, rule, ps, t) && forall k :: 0 <= k < |ps| ==> ps[k] in TriplesIn(facts)
    requires Exact(cfg, facts, out) && Materialised(facts, out, facts')
    ensures t in TriplesIn(facts')
  {
    hide Derivable;
    var fs := Carriers(facts, ps);
    assert |fs| == |TriplesOf(fs)| == |ps|;
    forall k | 0 <= k < |fs| ensures fs[k].depth <= n {
      assert fs[k] in facts && DepthHonest(cfg, base, n, fs[k]);
    }
    var c := Candidate(t, RouteOf(rule, fs, cfg.floor));
    assert DrawnFrom(cfg, rule, fs, c);
    assert Follows(cfg, facts, c);
    if !IsInput(facts, t) {
      var i :| 0 <= i < |out| && out[i].triple == c.triple;
    }
  }

  /** Starting from assertions, after `n` passes a triple is a fact exactly when it
      follows by rules nested at most `n` deep, or at most the depth cap. */
  lemma {:induction false} StageIsBoundedClosure(cfg: Config, stages: seq<set<Known>>, outs: seq<seq<Conclusion>>,
                                                 n: nat)
    requires cfg.maxDepth < U16 && PassRun(cfg, stages, outs) && n <= |outs|
    requires forall f :: f in stages[0] ==> f.depth == 0
    ensures stages[0] <= stages[n]
    ensures StageHonest(cfg, TriplesIn(stages[0]), n, stages[n])
            && StageComplete(cfg, TriplesIn(stages[0]), n, stages[n])
    ensures forall t :: t in TriplesIn(stages[n]) <==> Derivable(cfg.reg, TriplesIn(stages[0]), Reached(cfg, n), t)
  {
    hide Exact;
    var base := TriplesIn(stages[0]);
    if n == 0 {
      forall t | t in base ensures Derivable(cfg.reg, base, 0, t) {
      }
    } else {
      StageIsBoundedClosure(cfg, stages, outs, n - 1);
      HonestNext(cfg, base, n - 1, stages[n - 1], outs[n - 1], stages[n]);
      assert base <= TriplesIn(stages[n - 1]);
      CompleteNext(cfg, base, n - 1, stages[n - 1], outs[n - 1], stages[n]);
    }
    forall t | t in TriplesIn(stages[n]) ensures Derivable(cfg.reg, base, Reached(cfg, n), t) {
      var f :| f in stages[n] && f.triple == t;
      assert DepthHonest(cfg, base, n, f);
      DerivableMonotone(cfg.reg, base, f.depth, Reached(cfg, n), t);
    }
  }

  /** So a pass after as many as the cap allows finds nothing new. */
  lemma PassesStop(cfg: Config, stages: seq<set<Known>>, outs: seq<seq<Conclusion>>, n: nat)
    requires cfg.maxDepth < U16 && PassRun(cfg, stages, outs) && cfg.maxDepth <= n < |outs|
    requires forall f :: f in stages[0] ==> f.depth == 0
    ensures outs[n] == []
  {
    hide Derivable, Materialised;
    if outs[n] != [] {
      var base := TriplesIn(stages[0]);
      var c := outs[n][0];
      StageIsBoundedClosure(cfg, stages, outs, n);
      assert c.routes[0] in c.routes;
      var route := Candidate(c.triple, c.routes[0]);
      RouteHonest(cfg, base, n, stages[n], route);
      DerivableMonotone(cfg.reg, base, route.route.depth, cfg.maxDepth, c.triple);
      assert false;
    }
  }
}
