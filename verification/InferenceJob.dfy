/** Where the inference pass meets truth maintenance: the pass reads a snapshot, other
    work goes on, and only then are its conclusions written. */
module InferenceJob {
  import opened Facts
  import I = Inference
  import T = TruthMaintenance

  /** Every fact of the snapshot is a record of the namespace that asserts it. */
  ghost predicate Snapshot(s: T.State, ns: string, facts: set<I.Known>)
  {
    forall f :: f in facts ==>
      f.id in s.recs && f.id < s.nextId && s.recs[f.id].ns == ns && s.recs[f.id].fact == Some(f.triple)
  }

  /** A record keeps its namespace and, once it has one, its fact: a snapshot stays
      truthful about claims through any other step, whatever it then says of liveness. */
  lemma SnapshotKept(reg: Registry, s: T.State, step: T.Step, s': T.State, ns: string, facts: set<I.Known>)
    requires T.Next(reg, s, step, s') && Snapshot(s, ns, facts)
    ensures Snapshot(s', ns, facts)
  {
  }

  lemma {:induction false} SnapshotLasts(reg: Registry, steps: seq<T.Step>, states: seq<T.State>, m: nat, n: nat,
                                         ns: string, facts: set<I.Known>)
    requires T.Run(reg, steps, states) && m <= n < |states| && Snapshot(states[m], ns, facts)
    ensures Snapshot(states[n], ns, facts)
    decreases n
  {
    if m < n {
      SnapshotLasts(reg, steps, states, m, n - 1, ns, facts);
      assert T.Next(reg, states[n - 1], steps[n - 1], states[n]);
      SnapshotKept(reg, states[n - 1], steps[n - 1], states[n], ns, facts);
    }
  }

  /** A conclusion's routes as the stored record keeps them. */
  function Stored(rs: seq<I.ScoredRoute>): (out: seq<T.Route>)
    ensures |out| == |rs| && forall i :: 0 <= i < |rs| ==> out[i] == T.Route(rs[i].rule, rs[i].premises)
  {
    seq(|rs|, i requires 0 <= i < |rs| => T.Route(rs[i].rule, rs[i].premises))
  }

  lemma RouteGenuine(cfg: I.Config, s: T.State, ns: string, facts: set<I.Known>, c: I.Candidate)
    requires Snapshot(s, ns, facts) && I.Follows(cfg, facts, c)
    ensures T.Genuine(cfg.reg, s, s.nextId, ns, T.Route(c.route.rule, c.route.premises), c.triple)
  {
  }

  /** However much happened since the pass took its snapshot, writing any of its
      conclusions is a legitimate step. */
  lemma PassMayWrite(cfg: I.Config, steps: seq<T.Step>, states: seq<T.State>, m: nat, n: nat, ns: string,
                     facts: set<I.Known>, out: seq<I.Conclusion>, i: nat)
    requires T.Run(cfg.reg, steps, states) && m <= n < |states| && Snapshot(states[m], ns, facts)
    requires I.Sound(cfg, facts, out) && i < |out|
    ensures T.Enabled(cfg.reg, states[n], T.Conclude(ns, out[i].triple, Stored(out[i].routes)))
  {
    SnapshotLasts(cfg.reg, steps, states, m, n, ns, facts);
    forall k | 0 <= k < |out[i].routes|
      ensures T.Genuine(cfg.reg, states[n], states[n].nextId, ns, Stored(out[i].routes)[k], out[i].triple)
    {
      assert out[i].routes[k] in out[i].routes;
      RouteGenuine(cfg, states[n], ns, facts, I.Candidate(out[i].triple, out[i].routes[k]));
    }
  }
}
