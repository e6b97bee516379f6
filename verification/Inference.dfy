/** One inference pass: the consequences of a fact set by a single rule
    application each, with the routes that justify them. */
module Inference {
  import opened Facts
  import opened Routes
  import opened Probing
  import opened ProbeTables

  /** A live fact of the snapshot, with what its record contributes. */
  datatype Known = Known(id: nat, triple: Triple, depth: nat, conf: real)

  type ScoredRoute = Route<real>

  datatype Conclusion = Conclusion(triple: Triple, routes: seq<ScoredRoute>, conf: real)

  /** One candidate the scan considers. */
  datatype Candidate = Candidate(triple: Triple, route: ScoredRoute)

  /** What a pass is parameterised by, with defaults already applied. */
  datatype Config = Config(reg: Registry, maxDepth: nat, floor: real)

  const U16 := 65536
  const DEFAULT_MAX_DEPTH := 4
  const DEFAULT_MAX_CANDIDATES := 1000000
  const DEFAULT_FLOOR := 0.1

  // ----- what a pass is supposed to compute ------------------------------------

  function TriplesOf(fs: seq<Known>): seq<Triple> { seq(|fs|, i requires 0 <= i < |fs| => fs[i].triple) }

  function IdsOf(fs: seq<Known>): seq<nat> { seq(|fs|, i requires 0 <= i < |fs| => fs[i].id) }

  function Deepest(fs: seq<Known>): nat
    requires |fs| == 1 || |fs| == 2
  {
    if |fs| == 2 && fs[1].depth > fs[0].depth then fs[1].depth else fs[0].depth
  }

  function Product(fs: seq<Known>): real
    requires |fs| == 1 || |fs| == 2
  {
    if |fs| == 2 then fs[0].conf * fs[1].conf else fs[0].conf
  }

  /** The route these premises constitute. Depth is a 16-bit field. */
  function RouteOf(rule: Rule, fs: seq<Known>, floor: real): ScoredRoute
    requires |fs| == 1 || |fs| == 2
  {
    Route(rule, (Deepest(fs) + 1) % U16, IdsOf(fs), if Product(fs) < floor then floor else Product(fs))
  }

  /** `c` is the conclusion, by `rule` on `fs`, of facts shallower than the cap. */
  predicate DrawnFrom(cfg: Config, rule: Rule, fs: seq<Known>, c: Candidate)
  {
    && Instance(cfg.reg, rule, TriplesOf(fs), c.triple)
    && Deepest(fs) < cfg.maxDepth
    && c.route == RouteOf(rule, fs, cfg.floor)
  }

  predicate AllIn(fs: seq<Known>, facts: set<Known>) { forall i :: 0 <= i < |fs| ==> fs[i] in facts }

  ghost predicate Follows(cfg: Config, facts: set<Known>, c: Candidate)
  {
    exists rule: Rule, fs: seq<Known> :: AllIn(fs, facts) && DrawnFrom(cfg, rule, fs, c)
  }

  predicate IsInput(facts: set<Known>, t: Triple) { exists f :: f in facts && f.triple == t }

  /** Every route by which `t` follows. */
  ghost function RoutesTo(cfg: Config, facts: set<Known>, t: Triple): iset<ScoredRoute>
  {
    iset r: ScoredRoute | Follows(cfg, facts, Candidate(t, r))
  }

  /** The strongest of the kept routes. */
  function Strongest(rs: seq<ScoredRoute>): (best: real)
    ensures best >= 0.0
    ensures forall i :: 0 <= i < |rs| ==> rs[i].note <= best
    ensures best == 0.0 || exists i :: 0 <= i < |rs| && rs[i].note == best
  {
    if rs == [] then 0.0
    else
      var b := Strongest(rs[..|rs| - 1]);
      if rs[|rs| - 1].note > b then rs[|rs| - 1].note else b
  }

  predicate TriplesDistinct(out: seq<Conclusion>)
  {
    forall i, j :: 0 <= i < j < |out| ==> out[i].triple != out[j].triple
  }

  /** Everything written is justified, whatever cap ended the pass. */
  ghost predicate Sound(cfg: Config, facts: set<Known>, out: seq<Conclusion>)
  {
    && TriplesDistinct(out)
    && forall i :: 0 <= i < |out| ==>
         && !IsInput(facts, out[i].triple)
         && 0 < |out[i].routes| <= MAX_ROUTES && Sorted(out[i].routes)
         && (forall r :: r in out[i].routes ==> Follows(cfg, facts, Candidate(out[i].triple, r)))
         && out[i].conf == Strongest(out[i].routes)
  }

  /** A pass that was not cut short misses nothing and keeps the least routes. */
  ghost predicate Exact(cfg: Config, facts: set<Known>, out: seq<Conclusion>)
  {
    && Sound(cfg, facts, out)
    && (forall c :: Follows(cfg, facts, c) && !IsInput(facts, c.triple) ==>
          exists i :: 0 <= i < |out| && out[i].triple == c.triple)
    && (forall i :: 0 <= i < |out| ==> Keeps(out[i].routes, RoutesTo(cfg, facts, out[i].triple)))
  }

  // ----- the state of a running pass ---------------------------------------------

  ghost function Pool(offered: set<Candidate>, t: Triple): iset<ScoredRoute>
  {
    iset r: ScoredRoute | Candidate(t, r) in offered
  }

  /** The triple set and the output agree, and account for all that was offered. */
  ghost predicate Indexed(facts: set<Known>, seen: map<Triple, Option<nat>>, out: seq<Conclusion>)
  {
    && (forall t :: t in seen && seen[t].Some? ==> seen[t].value < |out| && out[seen[t].value].triple == t)
    && (forall i :: 0 <= i < |out| ==> out[i].triple in seen && seen[out[i].triple] == Some(i))
    && (forall t :: (t in seen && seen[t] == None) <==> IsInput(facts, t))
  }

  ghost predicate Accounted(seen: map<Triple, Option<nat>>, out: seq<Conclusion>, offered: set<Candidate>)
  {
    && (forall c :: c in offered ==> c.triple in seen)
    && (forall i :: 0 <= i < |out| ==>
          && out[i].routes != []
          && Keeps(out[i].routes, Pool(offered, out[i].triple))
          && out[i].conf == Strongest(out[i].routes))
  }

  ghost predicate Offerable(cfg: Config, facts: set<Known>, offered: set<Candidate>)
  {
    forall c :: c in offered ==> Follows(cfg, facts, c)
  }

  lemma AccountedSound(cfg: Config, facts: set<Known>, seen: map<Triple, Option<nat>>, out: seq<Conclusion>,
                       offered: set<Candidate>)
    requires Indexed(facts, seen, out) && Accounted(seen, out, offered) && Offerable(cfg, facts, offered)
    ensures Sound(cfg, facts, out)
  {
  }

  lemma AccountedExact(cfg: Config, facts: set<Known>, seen: map<Triple, Option<nat>>, out: seq<Conclusion>,
                       offered: set<Candidate>)
    requires Indexed(facts, seen, out) && Accounted(seen, out, offered) && Offerable(cfg, facts, offered)
    requires forall c :: Follows(cfg, facts, c) ==> c in offered
    ensures Exact(cfg, facts, out)
  {
    AccountedSound(cfg, facts, seen, out, offered);
    forall i | 0 <= i < |out| ensures Keeps(out[i].routes, RoutesTo(cfg, facts, out[i].triple)) {
      assert RoutesTo(cfg, facts, out[i].triple) == Pool(offered, out[i].triple);
    }
    forall c | Follows(cfg, facts, c) && !IsInput(facts, c.triple)
      ensures exists i :: 0 <= i < |out| && out[i].triple == c.triple
    {
      assert c in offered && seen[c.triple].Some?;
      assert out[seen[c.triple].value].triple == c.triple;
    }
  }

  // ----- the three outcomes of offering a candidate ---------------------------------

  lemma InsertKeeps(rs: seq<ScoredRoute>, pool: iset<ScoredRoute>, r: ScoredRoute)
    requires Keeps(rs, pool)
    ensures Keeps(Insert(rs, r), pool + iset{r}) && Insert(rs, r) != []
  {
    hide Cmp, Covers, Insert;
    InsertSorted(rs, r);
    InsertMembers(rs, r);
    forall q | q in pool + iset{r} ensures Covers(Insert(rs, r), q) {
      InsertCovers(rs, r, q);
    }
  }

  /** Already a fact: nothing is recorded. */
  lemma OfferKnown(facts: set<Known>, seen: map<Triple, Option<nat>>, out: seq<Conclusion>, offered: set<Candidate>,
                   c: Candidate)
    requires Indexed(facts, seen, out) && Accounted(seen, out, offered)
    requires c.triple in seen && seen[c.triple] == None
    ensures Accounted(seen, out, offered + {c})
  {
    hide Keeps;
    forall i | 0 <= i < |out| ensures Keeps(out[i].routes, Pool(offered + {c}, out[i].triple)) {
      assert Pool(offered + {c}, out[i].triple) == Pool(offered, out[i].triple);
    }
  }

  function Merged(k: Conclusion, r: ScoredRoute): Conclusion
  {
    k.(routes := Insert(k.routes, r), conf := Strongest(Insert(k.routes, r)))
  }

  /** Another route to a conclusion already drawn. */
  lemma OfferAgain(facts: set<Known>, seen: map<Triple, Option<nat>>, out: seq<Conclusion>, offered: set<Candidate>,
                   c: Candidate)
    requires Indexed(facts, seen, out) && Accounted(seen, out, offered)
    requires c.triple in seen && seen[c.triple].Some?
    ensures var at := seen[c.triple].value;
            var out' := out[at := Merged(out[at], c.route)];
            Indexed(facts, seen, out') && Accounted(seen, out', offered + {c})
  {
    hide Keeps, Insert, Strongest, IsInput;
    var at := seen[c.triple].value;
    var out' := out[at := Merged(out[at], c.route)];
    InsertKeeps(out[at].routes, Pool(offered, c.triple), c.route);
    forall i | 0 <= i < |out'| ensures out'[i].routes != []
        && Keeps(out'[i].routes, Pool(offered + {c}, out'[i].triple)) {
      if i == at {
        assert Pool(offered + {c}, c.triple) == Pool(offered, c.triple) + iset{c.route};
      } else {
        assert out[i].triple != c.triple;
        assert Pool(offered + {c}, out[i].triple) == Pool(offered, out[i].triple);
      }
    }
  }

  /** A new conclusion, with its first route. */
  lemma OfferNew(facts: set<Known>, seen: map<Triple, Option<nat>>, out: seq<Conclusion>, offered: set<Candidate>,
                 c: Candidate)
    requires Indexed(facts, seen, out) && Accounted(seen, out, offered)
    requires c.triple !in seen
    ensures var k := Merged(Conclusion(c.triple, [], 0.0), c.route);
            var seen', out' := seen[c.triple := Some(|out|)], out + [k];
            Indexed(facts, seen', out') && Accounted(seen', out', offered + {c})
  {
    hide Keeps, Insert;
    var k := Merged(Conclusion(c.triple, [], 0.0), c.route);
    var seen', out' := seen[c.triple := Some(|out|)], out + [k];
    KeepsNothing();
    assert Pool(offered, c.triple) == iset{};
    InsertKeeps([], iset{}, c.route);
    forall i | 0 <= i < |out'| ensures out'[i].routes != []
        && Keeps(out'[i].routes, Pool(offered + {c}, out'[i].triple)) {
      if i == |out| {
        assert Pool(offered + {c}, c.triple) == iset{} + iset{c.route};
      } else {
        assert Pool(offered + {c}, out[i].triple) == Pool(offered, out[i].triple);
      }
    }
  }

  lemma KeepsNothing()
    ensures Keeps<real>([], iset{})
  {
  }

  // ----- the pass ---------------------------------------------------------------------

  function KeyOf(f: Known): (nat, string) { (f.triple.subject, f.triple.pred) }

  predicate RowHolds(adj: map<(nat, string), seq<nat>>, key: (nat, string), i: nat) { key in adj && i in adj[key] }

  /** The join index: facts whose object is an id, by subject and predicate. */
  ghost predicate Adjacent(facts: seq<Known>, n: nat, adj: map<(nat, string), seq<nat>>)
    requires n <= |facts|
  {
    && (forall i :: 0 <= i < n && facts[i].triple.obj.IdObj? ==> RowHolds(adj, KeyOf(facts[i]), i))
    && (forall key: (nat, string), i: nat :: RowHolds(adj, key, i) ==>
         i < n && facts[i].triple.obj.IdObj? && KeyOf(facts[i]) == key)
  }

  ghost function SetOf(facts: seq<Known>): set<Known> { set f | f in facts }

  /** Every candidate by `rule` whose first premise is `f` has been offered. */
  ghost predicate ScannedBy(cfg: Config, facts: set<Known>, f: Known, rule: Rule, offered: set<Candidate>)
  {
    forall fs: seq<Known>, c: Candidate ::
      AllIn(fs, facts) && DrawnFrom(cfg, rule, fs, c) && fs[0] == f ==> c in offered
  }

  ghost predicate Scanned(cfg: Config, facts: set<Known>, f: Known, offered: set<Candidate>)
  {
    forall rule: Rule :: ScannedBy(cfg, facts, f, rule, offered)
  }

  lemma ScannedGrows(cfg: Config, facts: set<Known>, f: Known, rule: Rule, offered: set<Candidate>,
                     offered': set<Candidate>)
    requires ScannedBy(cfg, facts, f, rule, offered) && offered <= offered'
    ensures ScannedBy(cfg, facts, f, rule, offered')
  {
  }

  lemma AllScannedGrows(cfg: Config, facts: set<Known>, f: Known, offered: set<Candidate>, offered': set<Candidate>)
    requires Scanned(cfg, facts, f, offered) && offered <= offered'
    ensures Scanned(cfg, facts, f, offered')
  {
    forall rule: Rule ensures ScannedBy(cfg, facts, f, rule, offered') {
      ScannedGrows(cfg, facts, f, rule, offered, offered');
    }
  }

  /** The one conclusion a single-premise rule draws from `f`. */
  function Reversed(reg: Registry, rule: Rule, f: Triple): (t: Triple)
    requires !rule.Transitive? && f.obj.IdObj? && f.pred in reg
    requires rule.Inverse? ==> reg[f.pred].inverseOf.Some?
    ensures Instance(reg, rule, [f], t) <==> (rule.Symmetric? ==> reg[f.pred].symmetric)
  {
    Triple(f.obj.id, if rule.Symmetric? then f.pred else reg[f.pred].inverseOf.value, IdObj(f.subject))
  }

  /** `rule` can start from `f` at all. */
  predicate Starts(reg: Registry, rule: Rule, f: Triple)
  {
    && f.obj.IdObj? && f.pred in reg
    && match rule
       case Symmetric => reg[f.pred].symmetric
       case Inverse => reg[f.pred].inverseOf.Some?
       case Transitive => reg[f.pred].transitive
  }

  lemma NoStart(cfg: Config, facts: set<Known>, f: Known, rule: Rule, offered: set<Candidate>)
    requires !Starts(cfg.reg, rule, f.triple)
    ensures ScannedBy(cfg, facts, f, rule, offered)
  {
  }

  lemma ReversedScanned(cfg: Config, facts: set<Known>, f: Known, rule: Rule, offered: set<Candidate>)
    requires Starts(cfg.reg, rule, f.triple) && !rule.Transitive?
    requires f.depth < cfg.maxDepth ==>
               Candidate(Reversed(cfg.reg, rule, f.triple), RouteOf(rule, [f], cfg.floor)) in offered
    ensures ScannedBy(cfg, facts, f, rule, offered)
  {
    forall fs, c | AllIn(fs, facts) && DrawnFrom(cfg, rule, fs, c) && fs[0] == f ensures c in offered {
      assert fs == [f] && TriplesOf(fs) == [f.triple];
    }
  }

  predicate Joins(f: Known, g: Known)
  {
    && f.triple.obj.IdObj? && g.triple.obj.IdObj?
    && g.triple.subject == f.triple.obj.id && g.triple.pred == f.triple.pred
  }

  function Joined(f: Known, g: Known): Triple { Triple(f.triple.subject, f.triple.pred, g.triple.obj) }

  ghost predicate Offered(cfg: Config, f: Known, g: Known, offered: set<Candidate>)
  {
    Deepest([f, g]) < cfg.maxDepth ==> Candidate(Joined(f, g), RouteOf(Transitive, [f, g], cfg.floor)) in offered
  }

  lemma JoinedScanned(cfg: Config, facts: seq<Known>, adj: map<(nat, string), seq<nat>>, f: Known, row: seq<nat>,
                      offered: set<Candidate>)
    requires Adjacent(facts, |facts|, adj) && Starts(cfg.reg, Transitive, f.triple)
    requires row == var key := (f.triple.obj.id, f.triple.pred); if key in adj then adj[key] else []
    requires forall k :: 0 <= k < |row| ==> row[k] < |facts| && Offered(cfg, f, facts[row[k]], offered)
    ensures ScannedBy(cfg, SetOf(facts), f, Transitive, offered)
  {
    forall fs, c | AllIn(fs, SetOf(facts)) && DrawnFrom(cfg, Transitive, fs, c) && fs[0] == f ensures c in offered {
      var g := fs[1];
      assert fs == [f, g] && TriplesOf(fs) == [f.triple, g.triple];
      assert g in facts;
      var i :| 0 <= i < |facts| && facts[i] == g;
      assert i in row;
      var k :| 0 <= k < |row| && row[k] == i;
      assert Offered(cfg, f, facts[row[k]], offered);
    }
  }

  /** Only the triples of the first `n` facts are seen, all as inputs. */
  ghost predicate SeenInputs(facts: seq<Known>, n: nat, seen: map<Triple, Option<nat>>)
    requires n <= |facts|
  {
    && (forall t :: t in seen <==> exists j :: 0 <= j < n && facts[j].triple == t)
    && (forall t :: t in seen ==> seen[t] == None)
  }

  lemma LoadedIndexed(facts: seq<Known>, seen: map<Triple, Option<nat>>)
    requires SeenInputs(facts, |facts|, seen)
    ensures Indexed(SetOf(facts), seen, [])
  {
  }

  ghost predicate Apart(seen: GrowMap<Triple, Option<nat>>, adj: GrowMap<(nat, string), seq<nat>>)
    reads seen, seen.slots, adj, adj.slots
  {
    seen.Valid() && adj.Valid() && seen as object != adj && seen.slots as object != adj.slots
  }

  ghost predicate Loaded(facts: seq<Known>, n: nat, seen: GrowMap<Triple, Option<nat>>, adj: GrowMap<(nat, string),
                         seq<nat>>)
    requires n <= |facts|
    reads seen, seen.slots, adj, adj.slots
  {
    Apart(seen, adj) && SeenInputs(facts, n, seen.view) && Adjacent(facts, n, adj.view)
  }

  method LoadOne(facts: seq<Known>, i: nat, seen: GrowMap<Triple, Option<nat>>, adj: GrowMap<(nat, string), seq<nat>>)
    requires i < |facts| && Loaded(facts, i, seen, adj)
    modifies seen, seen.slots, adj, adj.slots
    ensures Loaded(facts, i + 1, seen, adj)
    ensures seen.slots == old(seen.slots) || fresh(seen.slots)
    ensures adj.slots == old(adj.slots) || fresh(adj.slots)
  {
    hide GrowMap.Valid, Adjacent, SeenInputs;
    var t := facts[i].triple;
    ghost var before, joins := seen.view, adj.view;
    seen.Put(t, None);
    SeenNext(facts, i, before);
    if t.obj.IdObj? {
      var row := adj.Find((t.subject, t.pred));
      adj.Put((t.subject, t.pred), (if row.Some? then row.value else []) + [i]);
    }
    AdjacentNext(facts, i, joins, adj.view);
  }

  /** Phase 1: index every input for dedup, and the joinable ones for the join. */
  method LoadTables(facts: seq<Known>, tripleHash: Triple -> nat, pairHash: ((nat, string)) -> nat)
    returns (seen: GrowMap<Triple, Option<nat>>, adj: GrowMap<(nat, string), seq<nat>>)
    ensures Loaded(facts, |facts|, seen, adj)
    ensures fresh(seen) && fresh(seen.slots) && fresh(adj) && fresh(adj.slots)
  {
    seen := new GrowMap<Triple, Option<nat>>(tripleHash);
    adj := new GrowMap<(nat, string), seq<nat>>(pairHash);
    hide GrowMap.Valid;
    for i := 0 to |facts|
      invariant Loaded(facts, i, seen, adj)
      invariant fresh(seen) && fresh(seen.slots) && fresh(adj) && fresh(adj.slots)
    {
      LoadOne(facts, i, seen, adj);
    }
  }

  /** The output is full and something that follows is in neither it nor the facts. */
  ghost predicate Deferred(cfg: Config, facts: set<Known>, seen: map<Triple, Option<nat>>, out: seq<Conclusion>,
                           max: nat)
  {
    max > 0 && |out| == max && exists c :: Follows(cfg, facts, c) && c.triple !in seen
  }

  /** So a pass the output cap ended is never exact. */
  lemma DeferredMisses(cfg: Config, facts: set<Known>, seen: map<Triple, Option<nat>>, out: seq<Conclusion>, max: nat)
    requires Indexed(facts, seen, out) && Deferred(cfg, facts, seen, out, max)
    ensures !Exact(cfg, facts, out)
  {
    var c :| Follows(cfg, facts, c) && c.triple !in seen;
    assert !IsInput(facts, c.triple) && forall i :: 0 <= i < |out| ==> out[i].triple != c.triple;
  }

  class Pass {
    const cfg: Config
    const facts: seq<Known>
    const maxConclusions: nat   // 0 is unlimited
    const maxCandidates: nat
    const seen: GrowMap<Triple, Option<nat>>
    const adj: GrowMap<(nat, string), seq<nat>>
    var out: seq<Conclusion>
    var candidates: nat
    var stop: bool
    var truncated: bool
    ghost var offered: set<Candidate>

    ghost predicate Valid()
      reads this, seen, seen.slots, adj, adj.slots
    {
      && Apart(seen, adj)
      && Adjacent(facts, |facts|, adj.view)
      && Indexed(SetOf(facts), seen.view, out)
      && Accounted(seen.view, out, offered)
      && Offerable(cfg, SetOf(facts), offered)
      && (stop <==> truncated)
      && (maxConclusions > 0 ==> |out| <= maxConclusions)
      && (truncated ==> candidates > maxCandidates || Deferred(cfg, SetOf(facts), seen.view, out, maxConclusions))
    }

    constructor (cfg: Config, facts: seq<Known>, maxConclusions: nat, maxCandidates: nat,
                 seen: GrowMap<Triple, Option<nat>>, adj: GrowMap<(nat, string), seq<nat>>)
      requires Loaded(facts, |facts|, seen, adj)
      ensures Valid() && this.seen == seen && this.adj == adj && this.cfg == cfg && this.facts == facts
      ensures this.maxConclusions == maxConclusions && this.maxCandidates == maxCandidates
      ensures out == [] && candidates == 0 && !stop && offered == {}
    {
      this.cfg, this.facts := cfg, facts;
      this.maxConclusions, this.maxCandidates := maxConclusions, maxCandidates;
      this.seen, this.adj := seen, adj;
      out, candidates, stop, truncated, offered := [], 0, false, false, {};
      LoadedIndexed(facts, seen.view);
    }

    /** A candidate whose triple is known already: merge its route, if it is a
        conclusion of this pass. */
    method Repeat(c: Candidate, known: Option<nat>)
      requires Valid() && !stop && c.triple in seen.view && seen.view[c.triple] == known
      requires Follows(cfg, SetOf(facts), c)
      modifies this`out, this`offered
      ensures Valid() && offered == old(offered) + {c}
    {
      hide Indexed, Accounted, Adjacent, GrowMap.Valid, Follows, Insert, IsInput;
      if known == None {
        OfferKnown(SetOf(facts), seen.view, out, offered, c);
      } else {
        OfferAgain(SetOf(facts), seen.view, out, offered, c);
        SlotInRange(SetOf(facts), seen.view, out, offered, c.triple);
        var at := known.value;
        var routes, _ := RoutesInsert(out[at].routes, c.route);
        out := out[at := Conclusion(c.triple, routes, Strongest(routes))];
      }
      offered := offered + {c};
    }

    /** A candidate whose triple is new. */
    method Record(c: Candidate)
      requires Valid() && !stop && c.triple !in seen.view && (maxConclusions > 0 ==> |out| < maxConclusions)
      requires Follows(cfg, SetOf(facts), c)
      modifies this`out, this`offered, seen, seen.slots
      ensures Valid() && (seen.slots == old(seen.slots) || fresh(seen.slots))
      ensures offered == old(offered) + {c}
    {
      hide Indexed, Accounted, Adjacent, GrowMap.Valid, Follows, Insert, IsInput;
      OfferNew(SetOf(facts), seen.view, out, offered, c);
      var routes, _ := RoutesInsert<real>([], c.route);
      out := out + [Conclusion(c.triple, routes, Strongest(routes))];
      seen.Put(c.triple, Some(|out| - 1));
      offered := offered + {c};
    }

    /** Offer one candidate: a repeat merges its route, a new one is recorded
        unless the output cap ends the pass. */
    method Consider(rule: Rule, fs: seq<Known>, t: Triple)
      requires Valid() && !stop && (|fs| == 1 || |fs| == 2)
      requires AllIn(fs, SetOf(facts)) && Instance(cfg.reg, rule, TriplesOf(fs), t)
      modifies this`out, this`stop, this`truncated, this`offered, seen, seen.slots
      ensures Valid() && (seen.slots == old(seen.slots) || fresh(seen.slots))
      ensures old(offered) <= offered
      ensures !stop && Deepest(fs) < cfg.maxDepth ==> Candidate(t, RouteOf(rule, fs, cfg.floor)) in offered
    {
      hide Indexed, Accounted, Adjacent, Instance, RouteOf, GrowMap.Valid, Deepest, IsInput, Offerable;
      if Deepest(fs) >= cfg.maxDepth {
        return;
      }
      var c := Candidate(t, RouteOf(rule, fs, cfg.floor));
      assert DrawnFrom(cfg, rule, fs, c);
      var known := seen.Find(t);
      if known.Some? {
        Repeat(c, known.value);
      } else if maxConclusions > 0 && |out| >= maxConclusions {
        assert Follows(cfg, SetOf(facts), c);
        truncated, stop := true, true;
      } else {
        Record(c);
      }
    }

    /** Count a candidate against the work budget. */
    method Spend()
      requires Valid() && !stop
      modifies this`candidates, this`stop, this`truncated
      ensures Valid() && candidates == old(candidates) + 1
      ensures stop <==> candidates > maxCandidates
    {
      hide Indexed, Accounted, Offerable, GrowMap.Valid, Adjacent;
      candidates := candidates + 1;
      if candidates > maxCandidates {
        truncated, stop := true, true;
      }
    }

    /** The symmetric or the inverse rule on one fact. */
    method Reverse(f: Known, rule: Rule)
      requires Valid() && !stop && f in facts && !rule.Transitive? && Starts(cfg.reg, rule, f.triple)
      modifies this`out, this`candidates, this`stop, this`truncated, this`offered, seen, seen.slots
      ensures Valid() && (seen.slots == old(seen.slots) || fresh(seen.slots))
      ensures old(offered) <= offered
      ensures !stop ==> ScannedBy(cfg, SetOf(facts), f, rule, offered)
    {
      hide Valid, RouteOf, ScannedBy, DrawnFrom;
      Spend();
      if !stop {
        assert TriplesOf([f]) == [f.triple];
        Consider(rule, [f], Reversed(cfg.reg, rule, f.triple));
        if !stop {
          ReversedScanned(cfg, SetOf(facts), f, rule, offered);
        }
      }
    }

    /** Join `f` with the fact at index `at` of its adjacency row. */
    method JoinOne(f: Known, at: nat)
      requires Valid() && !stop && f in facts && Starts(cfg.reg, Transitive, f.triple)
      requires at < |facts| && Joins(f, facts[at])
      modifies this`out, this`candidates, this`stop, this`truncated, this`offered, seen, seen.slots
      ensures Valid() && (seen.slots == old(seen.slots) || fresh(seen.slots))
      ensures old(offered) <= offered
      ensures !stop ==> Offered(cfg, f, facts[at], offered)
    {
      hide Valid, RouteOf;
      Spend();
      if !stop {
        assert TriplesOf([f, facts[at]]) == [f.triple, facts[at].triple];
        Consider(Transitive, [f, facts[at]], Joined(f, facts[at]));
      }
    }

    ghost function RowOf(f: Known): seq<nat>
      requires f.triple.obj.IdObj?
      reads adj
    {
      var key := (f.triple.obj.id, f.triple.pred);
      if key in adj.view then adj.view[key] else []
    }

    lemma RowJoins(f: Known)
      requires Valid() && f.triple.obj.IdObj?
      ensures forall k :: 0 <= k < |RowOf(f)| ==> RowOf(f)[k] < |facts| && Joins(f, facts[RowOf(f)[k]])
    {
      hide Indexed, Accounted, Offerable, GrowMap.Valid;
      var row := RowOf(f);
      forall k | 0 <= k < |row| ensures row[k] < |facts| && Joins(f, facts[row[k]]) {
        AdjacentAt(facts, |facts|, adj.view, (f.triple.obj.id, f.triple.pred), row[k]);
      }
    }

    lemma RowScanned(f: Known)
      requires Valid() && Starts(cfg.reg, Transitive, f.triple)
      requires forall k :: 0 <= k < |RowOf(f)| ==> RowOf(f)[k] < |facts| && Offered(cfg, f, facts[RowOf(f)[k]], offered)
      ensures ScannedBy(cfg, SetOf(facts), f, Transitive, offered)
    {
      hide Indexed, Accounted, Offerable, GrowMap.Valid, Offered;
      JoinedScanned(cfg, facts, adj.view, f, RowOf(f), offered);
    }

    /** The row the join walks. */
    method Row(f: Known) returns (row: seq<nat>)
      requires Valid() && f.triple.obj.IdObj?
      ensures row == RowOf(f)
    {
      var found := adj.Find((f.triple.obj.id, f.triple.pred));
      row := if found.Some? then found.value else [];
    }

    /** The transitive rule on one fact. */
    method Join(f: Known)
      requires Valid() && !stop && f in facts && Starts(cfg.reg, Transitive, f.triple)
      modifies this`out, this`candidates, this`stop, this`truncated, this`offered, seen, seen.slots
      ensures Valid() && (seen.slots == old(seen.slots) || fresh(seen.slots))
      ensures old(offered) <= offered
      ensures !stop ==> ScannedBy(cfg, SetOf(facts), f, Transitive, offered)
    {
      hide Valid, ScannedBy, RouteOf, Deepest;
      var row := Row(f);
      RowJoins(f);
      var j := 0;
      while j < |row| && !stop
        invariant Valid() && 0 <= j <= |row| && row == RowOf(f)
        invariant seen.slots == old(seen.slots) || fresh(seen.slots)
        invariant old(offered) <= offered
        invariant !stop ==> forall k :: 0 <= k < j ==> row[k] < |facts| && Offered(cfg, f, facts[row[k]], offered)
      {
        ghost var before := offered;
        JoinOne(f, row[j]);
        assert forall k :: 0 <= k < j && Offered(cfg, f, facts[row[k]], before) ==>
            Offered(cfg, f, facts[row[k]], offered);
        j := j + 1;
      }
      if !stop {
        RowScanned(f);
      }
    }

    /** Every rule on one fact, stopping where a cap says so. */
    method Scan(f: Known)
      requires Valid() && !stop && f in facts
      modifies this`out, this`candidates, this`stop, this`truncated, this`offered, seen, seen.slots
      ensures Valid() && (seen.slots == old(seen.slots) || fresh(seen.slots))
      ensures old(offered) <= offered
      ensures !stop ==> Scanned(cfg, SetOf(facts), f, offered)
    {
      hide Valid, ScannedBy;
      var t := f.triple;
      if !t.obj.IdObj? || t.pred !in cfg.reg {
        forall rule: Rule ensures ScannedBy(cfg, SetOf(facts), f, rule, offered) {
          NoStart(cfg, SetOf(facts), f, rule, offered);
        }
        return;
      }
      var spec := cfg.reg[t.pred];
      if spec.symmetric {
        Reverse(f, Symmetric);
      } else {
        NoStart(cfg, SetOf(facts), f, Symmetric, offered);
      }
      ghost var done := offered;
      if !stop {
        if spec.inverseOf.Some? {
          Reverse(f, Inverse);
        } else {
          NoStart(cfg, SetOf(facts), f, Inverse, offered);
        }
      }
      if !stop {
        ScannedGrows(cfg, SetOf(facts), f, Symmetric, done, offered);
        done := offered;
        if spec.transitive {
          Join(f);
        } else {
          NoStart(cfg, SetOf(facts), f, Transitive, offered);
        }
      }
      if !stop {
        ScannedGrows(cfg, SetOf(facts), f, Symmetric, done, offered);
        ScannedGrows(cfg, SetOf(facts), f, Inverse, done, offered);
        forall rule: Rule ensures ScannedBy(cfg, SetOf(facts), f, rule, offered) {
          match rule { case Symmetric => case Inverse => case Transitive => }
        }
      }
    }

    /** Phase 2: scan from `start`, wrapping, until done or a cap stops it. */
    method ScanAll(start: nat) returns (scanned: nat)
      requires Valid() && !stop && start < |facts| && offered == {}
      modifies this`out, this`candidates, this`stop, this`truncated, this`offered, seen, seen.slots
      ensures Valid() && scanned <= |facts|
      ensures !stop ==> scanned == |facts| && forall j :: 0 <= j < |facts| ==>
                Scanned(cfg, SetOf(facts), facts[j], offered)
    {
      hide Valid, Scanned;
      scanned := 0;
      while scanned < |facts| && !stop
        invariant Valid() && 0 <= scanned <= |facts|
        invariant seen.slots == old(seen.slots) || fresh(seen.slots)
        invariant !stop ==> forall d :: 0 <= d < scanned ==>
                    Scanned(cfg, SetOf(facts), facts[At(start, d, |facts|)], offered)
      {
        ghost var before := offered;
        Scan(facts[At(start, scanned, |facts|)]);
        forall f | Scanned(cfg, SetOf(facts), f, before) ensures Scanned(cfg, SetOf(facts), f, offered) {
          AllScannedGrows(cfg, SetOf(facts), f, before, offered);
        }
        scanned := scanned + 1;
      }
      if !stop {
        forall j | 0 <= j < |facts| ensures Scanned(cfg, SetOf(facts), facts[j], offered) {
          assert At(start, Dist(start, j, |facts|), |facts|) == j;
        }
      }
    }

    lemma Outcome()
      requires Valid()
      ensures Sound(cfg, SetOf(facts), out) && (maxConclusions > 0 ==> |out| <= maxConclusions) && truncated == stop
      ensures (forall j :: 0 <= j < |facts| ==> Scanned(cfg, SetOf(facts), facts[j], offered)) ==>
                Exact(cfg, SetOf(facts), out)
      ensures truncated && candidates <= maxCandidates ==> |out| == maxConclusions && !Exact(cfg, SetOf(facts), out)
    {
      hide Indexed, Accounted, Offerable, GrowMap.Valid, Scanned, Sound, Exact;
      if truncated && candidates <= maxCandidates {
        DeferredMisses(cfg, SetOf(facts), seen.view, out, maxConclusions);
      }
      AccountedSound(cfg, SetOf(facts), seen.view, out, offered);
      if forall j :: 0 <= j < |facts| ==> Scanned(cfg, SetOf(facts), facts[j], offered) {
        AllScanned(cfg, facts, offered);
        AccountedExact(cfg, SetOf(facts), seen.view, out, offered);
      }
    }
  }

  datatype Options = Options(maxDepth: nat, maxConclusions: nat, maxCandidates: nat, startIndex: nat, floor: real)

  function ConfigOf(reg: Registry, opts: Options): Config
  {
    Config(reg, if opts.maxDepth == 0 then DEFAULT_MAX_DEPTH else opts.maxDepth,
           if opts.floor > 0.0 then opts.floor else DEFAULT_FLOOR)
  }

  function BudgetOf(opts: Options): nat { if opts.maxCandidates == 0 then DEFAULT_MAX_CANDIDATES
                    else opts.maxCandidates }

  lemma AllScanned(cfg: Config, facts: seq<Known>, offered: set<Candidate>)
    requires forall j :: 0 <= j < |facts| ==> Scanned(cfg, SetOf(facts), facts[j], offered)
    ensures forall c :: Follows(cfg, SetOf(facts), c) ==> c in offered
  {
    forall c | Follows(cfg, SetOf(facts), c) ensures c in offered {
      var rule, fs :| AllIn(fs, SetOf(facts)) && DrawnFrom(cfg, rule, fs, c);
      assert fs[0] in facts;
      var j :| 0 <= j < |facts| && facts[j] == fs[0];
      assert ScannedBy(cfg, SetOf(facts), facts[j], rule, offered);
    }
  }

  /** infer_run. Whatever the caps, what comes back is justified; if nothing was
      cut short it is exactly what follows, with the least routes to each; and within
      the work budget only a result that really misses something is called truncated. */
  method InferRun(facts: seq<Known>, reg: Option<Registry>, opts: Options,
                  tripleHash: Triple -> nat, pairHash: ((nat, string)) -> nat)
    returns (out: seq<Conclusion>, truncated: bool, candidates: nat, scanned: nat)
    ensures reg == None ==> out == [] && !truncated
    ensures reg.Some? ==> Sound(ConfigOf(reg.value, opts), SetOf(facts), out)
    ensures reg.Some? && !truncated ==> Exact(ConfigOf(reg.value, opts), SetOf(facts), out)
    ensures reg.Some? && truncated && candidates <= BudgetOf(opts) ==>
              |out| == opts.maxConclusions && !Exact(ConfigOf(reg.value, opts), SetOf(facts), out)
    ensures opts.maxConclusions > 0 ==> |out| <= opts.maxConclusions
    ensures scanned <= |facts|
  {
    if reg == None || facts == [] {
      return [], false, 0, 0;
    }
    var cfg := ConfigOf(reg.value, opts);
    var seen, adj := LoadTables(facts, tripleHash, pairHash);
    var pass := new Pass(cfg, facts, opts.maxConclusions, BudgetOf(opts), seen, adj);
    hide Pass.Valid, Sound, Exact;
    scanned := pass.ScanAll(opts.startIndex % |facts|);
    pass.Outcome();
    out, truncated, candidates := pass.out, pass.truncated, pass.candidates;
  }

  lemma SlotInRange(facts: set<Known>, seen: map<Triple, Option<nat>>, out: seq<Conclusion>, offered: set<Candidate>,
                    t: Triple)
    requires Indexed(facts, seen, out) && Accounted(seen, out, offered) && t in seen && seen[t].Some?
    ensures seen[t].value < |out| && out[seen[t].value].triple == t && |out[seen[t].value].routes| <= MAX_ROUTES
  {
  }

  lemma SeenNext(facts: seq<Known>, i: nat, seen: map<Triple, Option<nat>>)
    requires i < |facts| && SeenInputs(facts, i, seen)
    ensures SeenInputs(facts, i + 1, seen[facts[i].triple := None])
  {
  }

  lemma AdjacentAt(facts: seq<Known>, n: nat, adj: map<(nat, string), seq<nat>>, key: (nat, string), i: nat)
    requires n <= |facts| && Adjacent(facts, n, adj) && RowHolds(adj, key, i)
    ensures i < n && facts[i].triple.obj.IdObj? && KeyOf(facts[i]) == key
  {
  }

  lemma AdjacentNext(facts: seq<Known>, i: nat, adj: map<(nat, string), seq<nat>>, adj': map<(nat, string), seq<nat>>)
    requires i < |facts| && Adjacent(facts, i, adj)
    requires var key := KeyOf(facts[i]);
             adj' == if facts[i].triple.obj.IdObj? then adj[key := (if key in adj then adj[key] else []) + [i]] else adj
    ensures Adjacent(facts, i + 1, adj')
  {
    var key := KeyOf(facts[i]);
    if facts[i].triple.obj.IdObj? {
      forall k: (nat, string), j: nat ensures RowHolds(adj', k, j) <==> RowHolds(adj, k, j) || (k == key && j == i) {
        RowGains(adj, key, i, k, j);
      }
    }
  }

  lemma RowGains(adj: map<(nat, string), seq<nat>>, key: (nat, string), i: nat, k: (nat, string), j: nat)
    ensures RowHolds(adj[key := (if key in adj then adj[key] else []) + [i]], k, j) <==>
              RowHolds(adj, k, j) || (k == key && j == i)
  {
  }
}
