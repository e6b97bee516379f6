/** Filtering incoming edges by kind. A posting carries an interned id, and a kind
    that could not be interned shares one id with all such kinds; this is what the
    filter then still promises about the edges' true kinds. */
module EdgeKinds {
  import opened Facts
  import opened EdgeIndex

  /** An edge as its writer meant it; the empty kind is no kind. */
  datatype TrueEdge = TrueEdge(src: nat, dst: nat, kind: string)

  /** One query result. `unknown` marks a candidate whose kind the index lost. */
  datatype Source = Source(src: nat, kind: Option<string>, unknown: bool)

  type Postings = map<nat, seq<Post>>

  function KindName(names: seq<string>, k: nat): Option<string>
  {
    if 1 <= k <= |names| then Some(names[k - 1]) else None
  }

  // ----- edge_index_sources ---------------------------------------------------------

  /** Some requested kind has no interned id. */
  predicate Unresolved(names: seq<string>, kinds: seq<string>)
  {
    exists i :: 0 <= i < |kinds| && kinds[i] != "" && kinds[i] !in names
  }

  predicate Named(names: seq<string>, kinds: seq<string>, k: nat)
  {
    exists i :: 0 <= i < |kinds| && kinds[i] != "" && kinds[i] in names && KindId(names, kinds[i]) == k
  }

  predicate Kept(names: seq<string>, kinds: seq<string>, k: nat)
  {
    kinds == [] || (k == KIND_UNKNOWN && Unresolved(names, kinds)) || Named(names, kinds, k)
  }

  function SourcesOf(names: seq<string>, kinds: seq<string>, ps: seq<Post>): seq<Source>
  {
    if ps == [] then []
    else
      var p := ps[|ps| - 1];
      SourcesOf(names, kinds, ps[..|ps| - 1])
      + (if Kept(names, kinds, p.kind) then [Source(p.src, KindName(names, p.kind), p.kind == KIND_UNKNOWN)] else [])
  }

  /** The filter resolved to ids once, then applied to each posting in order. */
  method Sources(index: Index, dst: nat, kinds: seq<string>) returns (out: seq<Source>)
    requires index.Valid()
    ensures out == SourcesOf(index.names, kinds, PostsFor(index.Map(), dst))
  {
    hide TableOk, PostsOk, CountsOk, NamesOk;
    var at := index.Find(dst);
    if at.None? {
      return [];
    }
    var ps := index.targets[at.value].value;
    var want, unresolved := Resolve(index, kinds);
    out := [];
    for i := 0 to |ps|
      invariant out == SourcesOf(index.names, kinds, ps[..i])
    {
      var k := ps[i].kind;
      assert ps[..i + 1][..i] == ps[..i];
      assert k in want <==> Named(index.names, kinds, k);
      if kinds == [] || (k == KIND_UNKNOWN && unresolved) || k in want {
        out := out + [Source(ps[i].src, KindName(index.names, k), k == KIND_UNKNOWN)];
      }
    }
    assert ps[..|ps|] == ps;
  }

  method Resolve(index: Index, kinds: seq<string>) returns (want: seq<nat>, unresolved: bool)
    requires NamesOk(index.names)
    ensures forall k :: k in want <==> Named(index.names, kinds, k)
    ensures unresolved <==> Unresolved(index.names, kinds)
  {
    want, unresolved := [], false;
    assert kinds[..0] == [];
    for i := 0 to |kinds|
      invariant forall k :: k in want <==> Named(index.names, kinds[..i], k)
      invariant unresolved <==> Unresolved(index.names, kinds[..i])
    {
      ResolveNext(index.names, kinds, i);
      if kinds[i] == "" {
        continue;
      }
      var k := index.KindLookup(kinds[i]);
      if k == KIND_UNKNOWN {
        unresolved := true;
      } else {
        want := want + [k];
      }
    }
    assert kinds[..|kinds|] == kinds;
  }

  lemma ResolveNext(names: seq<string>, kinds: seq<string>, i: nat)
    requires NamesOk(names) && i < |kinds|
    ensures Unresolved(names, kinds[..i + 1]) <==>
              Unresolved(names, kinds[..i]) || (kinds[i] != "" && kinds[i] !in names)
    ensures forall k :: Named(names, kinds[..i + 1], k) <==>
              Named(names, kinds[..i], k) || (kinds[i] != "" && kinds[i] in names && KindId(names, kinds[i]) == k)
    ensures kinds[i] != "" ==> (KindId(names, kinds[i]) == KIND_UNKNOWN <==> kinds[i] !in names)
  {
    var a, b := kinds[..i], kinds[..i + 1];
    assert b[i] == kinds[i];
    assert forall j :: 0 <= j < i ==> a[j] == b[j];
    forall k ensures Named(names, b, k) <==>
        Named(names, a, k) || (kinds[i] != "" && kinds[i] in names && KindId(names, kinds[i]) == k) {
      if Named(names, a, k) {
        var j :| 0 <= j < |a| && a[j] != "" && a[j] in names && KindId(names, a[j]) == k;
        assert b[j] == a[j];
      }
    }
    if Unresolved(names, a) {
      var j :| 0 <= j < |a| && a[j] != "" && a[j] !in names;
      assert b[j] == a[j];
    }
  }

  lemma {:induction false} SourcesMember(names: seq<string>, kinds: seq<string>, ps: seq<Post>)
    ensures forall s :: s in SourcesOf(names, kinds, ps) <==>
              exists p :: p in ps && Kept(names, kinds, p.kind)
                  && s == Source(p.src, KindName(names, p.kind), p.kind == KIND_UNKNOWN)
  {
    if ps != [] {
      var front, last := ps[..|ps| - 1], ps[|ps| - 1];
      assert ps == front + [last];
      SourcesMember(names, kinds, front);
    }
  }

  // ----- what the postings say about the true edges -------------------------------------

  function PostOf(names: seq<string>, e: TrueEdge): Post { Post(e.src, KindId(names, e.kind)) }

  /** Postings and true edges correspond, and a kind without an id can never get one. */
  ghost predicate Faithful(truth: set<TrueEdge>, m: Postings, names: seq<string>)
  {
    && (forall e :: e in truth ==> PostOf(names, e) in PostsFor(m, e.dst))
    && (forall d, p :: p in PostsFor(m, d) ==> exists e :: e in truth && e.dst == d && PostOf(names, e) == p)
    && (forall e :: e in truth && KindId(names, e.kind) == KIND_UNKNOWN ==>
         |e.kind| > MAX_KIND_LEN || |names| >= MAX_KINDS)
  }

  /** The names after kind_intern. */
  function Interned(names: seq<string>, kind: string): seq<string>
  {
    if Internable(kind) && kind !in names && |names| < MAX_KINDS then names + [kind] else names
  }

  lemma {:induction false} IdStable(names: seq<string>, kind: string, other: string)
    requires other in names
    ensures other in names + [kind] && NameIndex(names + [kind], other) == NameIndex(names, other)
  {
    if names[0] != other {
      assert (names + [kind])[1..] == names[1..] + [kind];
      IdStable(names[1..], kind, other);
    }
  }

  lemma AddKeepsFaith(truth: set<TrueEdge>, m: Postings, names: seq<string>, e: TrueEdge, m': Postings)
    requires Faithful(truth, m, names) && NamesOk(names)
    requires Gains(m, m', e.dst, PostOf(Interned(names, e.kind), e))
    ensures Faithful(truth + {e}, m', Interned(names, e.kind))
  {
    hide KindId, Gains;
    var names' := Interned(names, e.kind);
    forall x | x in truth ensures KindId(names', x.kind) == KindId(names, x.kind) {
      IdKept(names, e.kind, x.kind);
    }
    NewIdKnown(names, e.kind);
    GainsMeans(m, m', e.dst, PostOf(names', e));
    forall d, p | p in PostsFor(m', d) ensures exists x :: x in truth + {e} && x.dst == d && PostOf(names', x) == p {
      if p in PostsFor(m, d) {
        var x :| x in truth && x.dst == d && PostOf(names, x) == p;
        assert x in truth + {e} && PostOf(names', x) == p;
      } else {
        assert e in truth + {e} && e.dst == d && PostOf(names', e) == p;
      }
    }
  }

  lemma GainsMeans(m: Postings, m': Postings, d: nat, p: Post)
    requires Gains(m, m', d, p)
    ensures forall t, q :: q in PostsFor(m', t) <==> q in PostsFor(m, t) || (t == d && q == p)
  {
  }

  /** A kind that failed to intern never interns later: it is over-long, or the
      table was full and never shrinks. */
  lemma IdKept(names: seq<string>, kind: string, other: string)
    requires KindId(names, other) == KIND_UNKNOWN ==> |other| > MAX_KIND_LEN || |names| >= MAX_KINDS
    requires |names| < KIND_UNKNOWN
    ensures KindId(Interned(names, kind), other) == KindId(names, other)
  {
    if other in names {
      IdStable(names, kind, other);
    }
  }

  lemma NewIdKnown(names: seq<string>, kind: string)
    requires |names| < KIND_UNKNOWN
    ensures KindId(Interned(names, kind), kind) == KIND_UNKNOWN ==>
              |kind| > MAX_KIND_LEN || |Interned(names, kind)| >= MAX_KINDS
  {
  }

  /** Another true edge between the same ends shares the removed edge's posting. */
  ghost predicate HasTwin(truth: set<TrueEdge>, names: seq<string>, e: TrueEdge)
  {
    exists x :: x in truth && x != e && x.dst == e.dst && PostOf(names, x) == PostOf(names, e)
  }

  /** The exact condition for a removal: the index stays faithful iff the posting was
      not shared. Only kinds that could not be interned ever share one. */
  lemma RemoveExactly(truth: set<TrueEdge>, m: Postings, names: seq<string>, e: TrueEdge, m': Postings)
    requires Faithful(truth, m, names) && Loses(m, m', e.dst, PostOf(names, e))
    ensures Faithful(truth - {e}, m', names) <==> !HasTwin(truth, names, e)
  {
  }

  lemma TwinsUninternable(truth: set<TrueEdge>, names: seq<string>, e: TrueEdge)
    requires NamesOk(names) && HasTwin(truth, names, e)
    ensures KindId(names, e.kind) == KIND_UNKNOWN
  {
  }

  lemma DropKeepsFaith(truth: set<TrueEdge>, m: Postings, names: seq<string>, dst: nat)
    requires Faithful(truth, m, names)
    ensures Faithful((set e | e in truth && e.dst != dst), m - {dst}, names)
  {
    hide KindId;
    var rest := set e | e in truth && e.dst != dst;
    forall d, p | p in PostsFor(m - {dst}, d) ensures exists x :: x in rest && x.dst == d && PostOf(names, x) == p {
      assert p in PostsFor(m, d);
      var x :| x in truth && x.dst == d && PostOf(names, x) == p;
      assert x in rest;
    }
  }

  // ----- runs ---------------------------------------------------------------------------

  datatype Op = Added(edge: TrueEdge) | Removed(gone: TrueEdge) | Dropped(dst: nat)

  datatype State = State(m: Postings, names: seq<string>, truth: set<TrueEdge>)

  /** What each operation of the index does, with the true edges beside it. */
  ghost predicate OpStep(s: State, op: Op, s': State)
  {
    match op
    case Added(e) =>
      && s'.names == Interned(s.names, e.kind) && s'.truth == s.truth + {e}
      && Gains(s.m, s'.m, e.dst, PostOf(s'.names, e))
    case Removed(e) =>
      s'.names == s.names && s'.truth == s.truth - {e} && Loses(s.m, s'.m, e.dst, PostOf(s.names, e))
    case Dropped(d) =>
      s'.names == s.names && s'.truth == (set e | e in s.truth && e.dst != d) && s'.m == s.m - {d}
  }

  ghost predicate Run(ops: seq<Op>, states: seq<State>)
  {
    && |states| == |ops| + 1 && states[0] == State(map[], [], {})
    && forall i :: 0 <= i < |ops| ==> OpStep(states[i], ops[i], states[i + 1])
  }

  /** The operation does not remove an edge whose posting another edge shares. */
  ghost predicate Safe(s: State, op: Op)
  {
    op.Removed? ==> !HasTwin(s.truth, s.names, op.gone)
  }

  ghost predicate AllSafe(ops: seq<Op>, states: seq<State>, n: nat)
    requires n <= |ops| <= |states|
  {
    forall i :: 0 <= i < n ==> Safe(states[i], ops[i])
  }

  ghost predicate FaithfulState(s: State) { Faithful(s.truth, s.m, s.names) }

  ghost predicate FaithfulUpTo(states: seq<State>, n: nat)
    requires n < |states|
  {
    forall k :: 0 <= k <= n ==> FaithfulState(states[k])
  }

  lemma StepFaithful(s: State, op: Op, s': State)
    requires NamesOk(s.names) && FaithfulState(s) && OpStep(s, op, s')
    ensures FaithfulState(s') <==> Safe(s, op)
  {
    hide KindId, Faithful, Gains, Loses;
    match op
    case Added(e) => AddKeepsFaith(s.truth, s.m, s.names, e, s'.m);
    case Removed(e) => RemoveExactly(s.truth, s.m, s.names, e, s'.m);
    case Dropped(d) => DropKeepsFaith(s.truth, s.m, s.names, d);
  }

  lemma {:induction false} RunNames(ops: seq<Op>, states: seq<State>, n: nat)
    requires Run(ops, states) && n <= |ops|
    ensures NamesOk(states[n].names)
  {
    hide KindId, Gains, Loses, NamesOk;
    if n == 0 {
      NothingFaithful();
    } else {
      RunNames(ops, states, n - 1);
      assert OpStep(states[n - 1], ops[n - 1], states[n]);
      if ops[n - 1].Added? {
        NamesStayOk(states[n - 1].names, ops[n - 1].edge.kind);
      }
    }
  }

  /** Of all runs: postings and true edges have stayed in step exactly when no removal
      took a posting that another edge still needed. */
  lemma {:induction false} RunFaithful(ops: seq<Op>, states: seq<State>, n: nat)
    requires Run(ops, states) && n <= |ops|
    ensures FaithfulUpTo(states, n) <==> AllSafe(ops, states, n)
  {
    hide FaithfulState, Safe, NamesOk, OpStep;
    if n == 0 {
      NothingFaithful();
    } else {
      RunFaithful(ops, states, n - 1);
      RunNames(ops, states, n - 1);
      if FaithfulState(states[n - 1]) {
        StepFaithful(states[n - 1], ops[n - 1], states[n]);
      }
    }
  }

  /** Runs without removals, and runs whose kinds were all interned, are safe. */
  lemma {:induction false} BenignIsSafe(ops: seq<Op>, states: seq<State>, n: nat)
    requires Run(ops, states) && n <= |ops|
    requires
      || (forall i :: 0 <= i < |ops| ==> !ops[i].Removed?)
      || (forall i :: 0 <= i < |ops| && ops[i].Added? ==>
            KindId(states[i + 1].names, ops[i].edge.kind) != KIND_UNKNOWN)
    ensures AllSafe(ops, states, n)
    ensures (exists i :: 0 <= i < |ops| && ops[i].Removed?) ==> AllKnown(states[n])
  {
    hide KindId, Gains, Loses, NamesOk, FaithfulState;
    if n > 0 {
      var s, s' := states[n - 1], states[n];
      BenignIsSafe(ops, states, n - 1);
      RunNames(ops, states, n - 1);
      RunFaithful(ops, states, n - 1);
      assert OpStep(s, ops[n - 1], s') && FaithfulState(s);
      match ops[n - 1]
      case Added(e) => KnownKept(s, e);
      case Removed(e) =>
        if HasTwin(s.truth, s.names, e) {
          TwinsUninternable(s.truth, s.names, e);
          assert false;
        }
      case Dropped(_) =>
    }
  }

  ghost predicate AllKnown(s: State) { forall e :: e in s.truth ==> KindId(s.names, e.kind) != KIND_UNKNOWN }

  lemma KnownKept(s: State, e: TrueEdge)
    requires FaithfulState(s) && NamesOk(s.names)
    ensures forall x :: x in s.truth ==> KindId(Interned(s.names, e.kind), x.kind) == KindId(s.names, x.kind)
  {
    hide KindId;
    forall x | x in s.truth ensures KindId(Interned(s.names, e.kind), x.kind) == KindId(s.names, x.kind) {
      FaithfulIds(s.truth, s.m, s.names, x);
      IdKept(s.names, e.kind, x.kind);
    }
  }

  lemma NothingFaithful()
    ensures FaithfulState(State(map[], [], {})) && NamesOk([])
  {
  }

  lemma NamesStayOk(names: seq<string>, kind: string)
    requires NamesOk(names)
    ensures NamesOk(Interned(names, kind))
  {
  }

  lemma FaithfulIds(truth: set<TrueEdge>, m: Postings, names: seq<string>, e: TrueEdge)
    requires Faithful(truth, m, names) && e in truth
    ensures KindId(names, e.kind) == KIND_UNKNOWN ==> |e.kind| > MAX_KIND_LEN || |names| >= MAX_KINDS
  {
  }

  /** The filter is complete: an edge whose true kind is asked for is returned. */
  lemma FilterComplete(truth: set<TrueEdge>, m: Postings, names: seq<string>, kinds: seq<string>, e: TrueEdge)
    requires Faithful(truth, m, names) && NamesOk(names)
    requires e in truth && (kinds == [] || (e.kind != "" && e.kind in kinds))
    ensures exists s :: s in SourcesOf(names, kinds, PostsFor(m, e.dst)) && s.src == e.src
                        && (s.unknown || s.kind == (if e.kind == "" then None else Some(e.kind)))
  {
    var p := PostOf(names, e);
    SourcesMember(names, kinds, PostsFor(m, e.dst));
    if kinds != [] {
      var i :| 0 <= i < |kinds| && kinds[i] == e.kind;
      assert if e.kind in names then Named(names, kinds, p.kind) else Unresolved(names, kinds);
    }
    var s := Source(p.src, KindName(names, p.kind), p.kind == KIND_UNKNOWN);
    assert s in SourcesOf(names, kinds, PostsFor(m, e.dst));
  }

  /** The filter is precise: a result not marked unknown is a true edge of a kind
      that was asked for. */
  lemma FilterPrecise(truth: set<TrueEdge>, m: Postings, names: seq<string>, kinds: seq<string>, dst: nat, s: Source)
    requires Faithful(truth, m, names) && NamesOk(names)
    requires s in SourcesOf(names, kinds, PostsFor(m, dst)) && !s.unknown
    ensures TrueEdge(s.src, dst, if s.kind.Some? then s.kind.value else "") in truth
    ensures kinds == [] || (s.kind.Some? && s.kind.value in kinds)
  {
    hide KindId, KindName, NamesOk, SourcesOf;
    SourcesMember(names, kinds, PostsFor(m, dst));
    var p :| p in PostsFor(m, dst) && Kept(names, kinds, p.kind)
        && s == Source(p.src, KindName(names, p.kind), p.kind == KIND_UNKNOWN);
    var e :| e in truth && e.dst == dst && PostOf(names, e) == p;
    IdNames(names, e.kind);
    if kinds != [] {
      var i :| 0 <= i < |kinds| && kinds[i] != "" && kinds[i] in names && KindId(names, kinds[i]) == p.kind;
      IdNames(names, kinds[i]);
    }
  }

  /** An id names back the kind it was given for. */
  lemma IdNames(names: seq<string>, kind: string)
    requires NamesOk(names) && KindId(names, kind) != KIND_UNKNOWN
    ensures KindName(names, KindId(names, kind)) == (if kind == "" then None else Some(kind))
  {
  }

  /** An edge of this kind answers the query: no kind was asked for, or its own was, or
      neither it nor some kind asked for has an id and it cannot be ruled out. */
  predicate Answers(names: seq<string>, kinds: seq<string>, kind: string)
  {
    || kinds == []
    || (kind != "" && kind in kinds)
    || (KindId(names, kind) == KIND_UNKNOWN && Unresolved(names, kinds))
  }

  /** What an answer says of an edge: its kind where the table knows it. */
  function Told(names: seq<string>, e: TrueEdge): Source
  {
    var unknown := KindId(names, e.kind) == KIND_UNKNOWN;
    Source(e.src, if unknown || e.kind == "" then None else Some(e.kind), unknown)
  }

  lemma KeptAnswers(names: seq<string>, kinds: seq<string>, kind: string)
    requires NamesOk(names)
    ensures Kept(names, kinds, KindId(names, kind)) <==> Answers(names, kinds, kind)
  {
    if kind != "" && kind in kinds {
      var i :| 0 <= i < |kinds| && kinds[i] == kind;
      assert if kind in names then Named(names, kinds, KindId(names, kind)) else Unresolved(names, kinds);
    }
    var k := KindId(names, kind);
    if i :| 0 <= i < |kinds| && kinds[i] != "" && kinds[i] in names && KindId(names, kinds[i]) == k {
      IdNames(names, kinds[i]);
    }
  }

  /** The filter is exact, whatever could be interned: an answer is an edge it should
      give, told as far as the table knows it. */
  lemma FilterExactly(truth: set<TrueEdge>, m: Postings, names: seq<string>, kinds: seq<string>, dst: nat, s: Source)
    requires Faithful(truth, m, names) && NamesOk(names)
    ensures s in SourcesOf(names, kinds, PostsFor(m, dst)) <==>
              exists e :: e in truth && e.dst == dst && Answers(names, kinds, e.kind) && s == Told(names, e)
  {
    hide SourcesOf, Answers, Kept, KindId;
    SourcesMember(names, kinds, PostsFor(m, dst));
    forall e: TrueEdge
      ensures Kept(names, kinds, PostOf(names, e).kind) <==> Answers(names, kinds, e.kind)
      ensures Told(names, e) == Source(e.src, KindName(names, PostOf(names, e).kind),
                  PostOf(names, e).kind == KIND_UNKNOWN)
    {
      KeptAnswers(names, kinds, e.kind);
      if KindId(names, e.kind) != KIND_UNKNOWN {
        IdNames(names, e.kind);
      }
    }
  }

  /** Both, at every point of every run up to a removal that takes a shared posting. */
  lemma FilterCorrect(ops: seq<Op>, states: seq<State>, n: nat, kinds: seq<string>, e: TrueEdge)
    requires Run(ops, states) && n <= |ops| && AllSafe(ops, states, n)
    ensures var s := states[n];
            var found := SourcesOf(s.names, kinds, PostsFor(s.m, e.dst));
            && (e in s.truth && (kinds == [] || (e.kind != "" && e.kind in kinds)) ==>
                  exists x :: x in found && x.src == e.src
                      && (x.unknown || x.kind == (if e.kind == "" then None else Some(e.kind))))
            && (forall x :: x in found && !x.unknown ==>
                  && TrueEdge(x.src, e.dst, if x.kind.Some? then x.kind.value else "") in s.truth
                  && (kinds == [] || (x.kind.Some? && x.kind.value in kinds)))
  {
    hide Faithful, SourcesOf, KindId;
    var s := states[n];
    RunFaithful(ops, states, n);
    RunNames(ops, states, n);
    assert FaithfulState(s);
    if e in s.truth && (kinds == [] || (e.kind != "" && e.kind in kinds)) {
      FilterComplete(s.truth, s.m, s.names, kinds, e);
    }
    forall x | x in SourcesOf(s.names, kinds, PostsFor(s.m, e.dst)) && !x.unknown
      ensures TrueEdge(x.src, e.dst, if x.kind.Some? then x.kind.value else "") in s.truth
      ensures kinds == [] || (x.kind.Some? && x.kind.value in kinds)
    {
      FilterPrecise(s.truth, s.m, s.names, kinds, e.dst, x);
    }
  }

  /** And exact, at every such point. */
  lemma FilterAlways(ops: seq<Op>, states: seq<State>, n: nat, kinds: seq<string>, dst: nat, x: Source)
    requires Run(ops, states) && n <= |ops| && AllSafe(ops, states, n)
    ensures var s := states[n];
            x in SourcesOf(s.names, kinds, PostsFor(s.m, dst)) <==>
              exists e :: e in s.truth && e.dst == dst && Answers(s.names, kinds, e.kind) && x == Told(s.names, e)
  {
    hide Faithful, SourcesOf, KindId;
    RunFaithful(ops, states, n);
    RunNames(ops, states, n);
    assert FaithfulState(states[n]);
    FilterExactly(states[n].truth, states[n].m, states[n].names, kinds, dst, x);
  }

  // ----- a removal that loses an edge -----------------------------------------------------

  /** Two edges of over-long kinds, 1 -> 2, one posting between them; one is removed. */
  function LossOps(a: string, b: string): seq<Op>
  {
    [Added(TrueEdge(1, 2, a)), Added(TrueEdge(1, 2, b)), Removed(TrueEdge(1, 2, a))]
  }

  function LossStates(a: string, b: string): (r: seq<State>)
    ensures |r| == 4
  {
    var shared := map[2 := [Post(1, KIND_UNKNOWN)]];
    [State(map[], [], {}), State(shared, [], {TrueEdge(1, 2, a)}),
     State(shared, [], {TrueEdge(1, 2, a), TrueEdge(1, 2, b)}), State(map[], [], {TrueEdge(1, 2, b)})]
  }

  /** Any two distinct kinds too long to intern: removing one edge loses the other, so a
      query for its very kind finds nothing. */
  lemma SharedPostingLoses(a: string, b: string)
    requires |a| > MAX_KIND_LEN && |b| > MAX_KIND_LEN && a != b
    ensures Run(LossOps(a, b), LossStates(a, b)) && !AllSafe(LossOps(a, b), LossStates(a, b), 3)
    ensures var s := LossStates(a, b)[3];
            TrueEdge(1, 2, b) in s.truth && SourcesOf(s.names, [b], PostsFor(s.m, 2)) == []
  {
    var ops, states := LossOps(a, b), LossStates(a, b);
    var both := states[2];
    assert KindId([], a) == KIND_UNKNOWN && KindId([], b) == KIND_UNKNOWN;
    assert OpStep(states[0], ops[0], states[1]);
    assert OpStep(states[1], ops[1], states[2]);
    assert both.truth - {TrueEdge(1, 2, a)} == {TrueEdge(1, 2, b)};
    assert OpStep(states[2], ops[2], states[3]);
    assert TrueEdge(1, 2, b) in both.truth && PostOf([], TrueEdge(1, 2, b)) == PostOf([], TrueEdge(1, 2, a));
    assert !Safe(both, ops[2]);
  }
}
